/** The entry list of the voting page: entries, the string order used to
    sort them, and the two list operations that `vote` and `flag` chain,
    `uniqBy(_, 'title')` and `orderBy(_, 'title', 'desc')`. */
module Entries {

  /** One entry on the page (the unused `image` field is dropped). */
  datatype Entry = Entry(title: string, votes: int, flag: bool)

  /** JavaScript's `a < b` on strings: character-wise lexicographic order,
      a proper prefix coming first. */
  predicate Below(a: string, b: string)
  {
    if a == [] then b != []
    else if b == [] then false
    else if a[0] != b[0] then a[0] < b[0]
    else Below(a[1..], b[1..])
  }

  lemma {:induction false} BelowIrreflexive(a: string)
    ensures !Below(a, a)
  {
    if a != [] {
      BelowIrreflexive(a[1..]);
    }
  }

  lemma {:induction false} BelowTransitive(a: string, b: string, c: string)
    requires Below(a, b) && Below(b, c)
    ensures Below(a, c)
  {
    if a != [] && a[0] == b[0] && b[0] == c[0] {
      BelowTransitive(a[1..], b[1..], c[1..]);
    }
  }

  lemma {:induction false} BelowTotal(a: string, b: string)
    requires a != b
    ensures Below(a, b) || Below(b, a)
  {
    if a != [] && b != [] && a[0] == b[0] {
      assert a == [a[0]] + a[1..] && b == [b[0]] + b[1..];
      BelowTotal(a[1..], b[1..]);
    }
  }

  predicate DistinctStrings(s: seq<string>)
  {
    forall i, j :: 0 <= i < j < |s| ==> s[i] != s[j]
  }

  predicate DistinctTitles(s: seq<Entry>)
  {
    forall i, j :: 0 <= i < j < |s| ==> s[i].title != s[j].title
  }

  /** Sorted by title, strictly descending. */
  predicate Descending(s: seq<Entry>)
  {
    forall i, j :: 0 <= i < j < |s| ==> Below(s[j].title, s[i].title)
  }

  lemma DescendingDistinct(s: seq<Entry>)
    requires Descending(s)
    ensures DistinctTitles(s)
  {
    forall i, j | 0 <= i < j < |s| ensures s[i].title != s[j].title {
      BelowIrreflexive(s[i].title);
    }
  }

  /** `uniqBy(s, 'title')` scanning with the titles already `seen`:
      the first entry of each title is kept, later ones are dropped. */
  function UniqFrom(s: seq<Entry>, seen: set<string>): (r: seq<Entry>)
    ensures forall i :: 0 <= i < |r| ==> r[i] in s && r[i].title !in seen
    ensures DistinctTitles(r)
  {
    if s == [] then []
    else if s[0].title in seen then UniqFrom(s[1..], seen)
    else [s[0]] + UniqFrom(s[1..], seen + {s[0].title})
  }

  function UniqByTitle(s: seq<Entry>): (r: seq<Entry>)
    ensures forall i :: 0 <= i < |r| ==> r[i] in s
    ensures DistinctTitles(r)
  {
    UniqFrom(s, {})
  }

  /** Some entry of `r` has title `t`. */
  predicate HasTitle(r: seq<Entry>, t: string)
  {
    exists j :: 0 <= j < |r| && r[j].title == t
  }

  /** No entry before position i shares its title. */
  predicate FirstOfTitle(s: seq<Entry>, i: nat)
    requires i < |s|
  {
    forall i' :: 0 <= i' < i ==> s[i'].title != s[i].title
  }

  /** Every title not yet seen is kept. */
  lemma {:induction false} UniqFromKeepsTitles(s: seq<Entry>, seen: set<string>)
    ensures forall i :: 0 <= i < |s| && s[i].title !in seen ==> HasTitle(UniqFrom(s, seen), s[i].title)
  {
    if s != [] {
      var r := UniqFrom(s, seen);
      var seen' := if s[0].title in seen then seen else seen + {s[0].title};
      var rest := UniqFrom(s[1..], seen');
      UniqFromKeepsTitles(s[1..], seen');
      var off := if s[0].title in seen then 0 else 1;
      assert r == if s[0].title in seen then rest else [s[0]] + rest;
      forall i | 0 <= i < |s| && s[i].title !in seen ensures HasTitle(r, s[i].title) {
        if off == 1 && s[i].title == s[0].title {
          assert r[0].title == s[i].title;
        } else {
          assert s[1..][i - 1] == s[i];
          var j :| 0 <= j < |rest| && rest[j].title == s[i].title;
          assert r[j + off] == rest[j];
        }
      }
    }
  }

  /** What is kept is the first entry of its title. */
  lemma {:induction false} UniqFromKeepsFirsts(s: seq<Entry>, seen: set<string>)
    ensures forall j :: 0 <= j < |UniqFrom(s, seen)| ==>
      exists i :: 0 <= i < |s| && s[i] == UniqFrom(s, seen)[j] && FirstOfTitle(s, i)
  {
    if s != [] {
      var r := UniqFrom(s, seen);
      var seen' := if s[0].title in seen then seen else seen + {s[0].title};
      var rest := UniqFrom(s[1..], seen');
      UniqFromKeepsFirsts(s[1..], seen');
      var off := if s[0].title in seen then 0 else 1;
      assert r == if s[0].title in seen then rest else [s[0]] + rest;
      forall j | 0 <= j < |UniqFrom(s, seen)|
        ensures exists i :: 0 <= i < |s| && s[i] == UniqFrom(s, seen)[j] && FirstOfTitle(s, i)
      {
        if off == 1 && j == 0 {
          assert s[0] == r[0] && FirstOfTitle(s, 0);
        } else {
          assert r[j] == rest[j - off];
          var i :| 0 <= i < |s[1..]| && s[1..][i] == rest[j - off] && FirstOfTitle(s[1..], i);
          assert rest[j - off].title !in seen';
          assert s[i + 1] == r[j];
          forall i' | 0 <= i' < i + 1 ensures s[i'].title != s[i + 1].title {
            if i' > 0 {
              assert s[1..][i' - 1] == s[i'];
            }
          }
          assert FirstOfTitle(s, i + 1);
        }
      }
      assert forall j :: 0 <= j < |UniqFrom(s, seen)| ==>
        exists i :: 0 <= i < |s| && s[i] == UniqFrom(s, seen)[j] && FirstOfTitle(s, i);
    } else {
      assert |UniqFrom(s, seen)| == 0;
    }
  }

  /** `uniqBy(s, 'title')` keeps one entry of every title of `s`, and the
      one it keeps is the first of that title. */
  lemma UniqByTitleKeepsFirsts(s: seq<Entry>)
    ensures forall i :: 0 <= i < |s| ==> HasTitle(UniqByTitle(s), s[i].title)
    ensures forall j :: 0 <= j < |UniqByTitle(s)| ==>
      exists i :: 0 <= i < |s| && s[i] == UniqByTitle(s)[j] && FirstOfTitle(s, i)
  {
    var none: set<string> := {};
    UniqFromKeepsTitles(s, none);
    UniqFromKeepsFirsts(s, none);
    assert UniqByTitle(s) == UniqFrom(s, none);
  }

  /** A list with distinct titles, none already seen, passes unchanged. */
  lemma {:induction false} UniqFromFresh(s: seq<Entry>, seen: set<string>)
    requires DistinctTitles(s)
    requires forall j :: 0 <= j < |s| ==> s[j].title !in seen
    ensures UniqFrom(s, seen) == s
  {
    if s != [] {
      UniqFromFresh(s[1..], seen + {s[0].title});
    }
  }

  /** With distinct titles, exactly the one entry whose title was seen
      is dropped. */
  lemma {:induction false} UniqFromDropsSeen(s: seq<Entry>, seen: set<string>, k: nat)
    requires DistinctTitles(s) && k < |s|
    requires s[k].title in seen
    requires forall j :: 0 <= j < |s| && j != k ==> s[j].title !in seen
    ensures UniqFrom(s, seen) == s[..k] + s[k + 1..]
  {
    if k == 0 {
      UniqFromFresh(s[1..], seen);
    } else {
      UniqFromDropsSeen(s[1..], seen + {s[0].title}, k - 1);
      assert s[1..][..k - 1] == s[1..k];
      assert s[1..][k..] == s[k + 1..];
      assert s[..k] == [s[0]] + s[1..k];
    }
  }

  /** Stable insertion into a descending list: `x` goes before the first
      element whose title is not above its own. */
  function Insert(x: Entry, s: seq<Entry>): (r: seq<Entry>)
    ensures multiset(r) == multiset([x] + s)
  {
    if s == [] || !Below(x.title, s[0].title) then [x] + s
    else
      assert s == [s[0]] + s[1..];
      [s[0]] + Insert(x, s[1..])
  }

  lemma {:induction false} InsertDescending(x: Entry, s: seq<Entry>)
    requires Descending(s)
    requires forall j :: 0 <= j < |s| ==> s[j].title != x.title
    ensures Descending(Insert(x, s))
  {
    var r := Insert(x, s);
    if s == [] {
    } else if !Below(x.title, s[0].title) {
      BelowTotal(x.title, s[0].title);
      forall j | 0 < j < |s| ensures Below(s[j].title, x.title) {
        BelowTransitive(s[j].title, s[0].title, x.title);
      }
    } else {
      InsertDescending(x, s[1..]);
      var t := Insert(x, s[1..]);
      forall j | 0 <= j < |t| ensures Below(t[j].title, s[0].title) {
        assert t[j] in multiset([x] + s[1..]);
        assert t[j] in [x] + s[1..];
        if t[j] != x {
          var i :| 0 <= i < |s[1..]| && s[1..][i] == t[j];
          assert s[i + 1] == t[j];
        }
      }
    }
  }

  /** `orderBy(s, 'title', 'desc')`: a stable sort by title, descending. */
  function OrderByTitleDesc(s: seq<Entry>): (r: seq<Entry>)
    ensures |r| == |s| && multiset(r) == multiset(s)
    ensures DistinctTitles(s) ==> Descending(r)
  {
    if s == [] then []
    else
      var rest := OrderByTitleDesc(s[1..]);
      assert s == [s[0]] + s[1..];
      InsertSorted(s, rest);
      Insert(s[0], rest)
  }

  lemma InsertSorted(s: seq<Entry>, rest: seq<Entry>)
    requires s != [] && multiset(rest) == multiset(s[1..])
    requires DistinctTitles(s[1..]) ==> Descending(rest)
    ensures DistinctTitles(s) ==> Descending(Insert(s[0], rest))
  {
    if DistinctTitles(s) {
      assert DistinctTitles(s[1..]);
      forall j | 0 <= j < |rest| ensures rest[j].title != s[0].title {
        assert rest[j] in multiset(s[1..]);
        var i :| 0 <= i < |s[1..]| && s[1..][i] == rest[j];
        assert s[i + 1] == rest[j];
      }
      InsertDescending(s[0], rest);
    }
  }

  /** Two descending lists with the same elements start alike. */
  lemma DescendingSameHead(a: seq<Entry>, b: seq<Entry>)
    requires Descending(a) && Descending(b) && a != []
    requires multiset(a) == multiset(b)
    ensures b != [] && a[0] == b[0]
  {
    assert a[0] in multiset(b);
    assert b[0] in multiset(a);
    var i :| 0 <= i < |a| && a[i] == b[0];
    var j :| 0 <= j < |b| && b[j] == a[0];
    if i != 0 {
      assert Below(b[0].title, b[j].title);
      if j == 0 {
        BelowIrreflexive(a[0].title);
      } else {
        BelowTransitive(b[j].title, b[0].title, b[j].title);
        BelowIrreflexive(b[j].title);
      }
    }
  }

  lemma MultisetTail(a: seq<Entry>)
    requires a != []
    ensures multiset(a[1..]) == multiset(a) - multiset{a[0]}
  {
    assert a == [a[0]] + a[1..];
  }

  /** Two descending lists with the same elements are the same list:
      sorting by distinct titles leaves no freedom. */
  lemma {:induction false} DescendingUnique(a: seq<Entry>, b: seq<Entry>)
    requires Descending(a) && Descending(b)
    requires multiset(a) == multiset(b)
    ensures a == b
  {
    if a == [] {
      assert |multiset(b)| == 0;
    } else {
      DescendingSameHead(a, b);
      MultisetTail(a);
      MultisetTail(b);
      DescendingUnique(a[1..], b[1..]);
      assert a == [a[0]] + a[1..] && b == [b[0]] + b[1..];
    }
  }

  /** Changing an entry but not its title keeps the list sorted. */
  lemma DescendingUpdate(es: seq<Entry>, k: nat, e: Entry)
    requires Descending(es) && k < |es|
    requires e.title == es[k].title
    ensures Descending(es[k := e])
  {
    var r := es[k := e];
    forall i, j | 0 <= i < j < |r| ensures Below(r[j].title, r[i].title) {
      assert r[i].title == es[i].title && r[j].title == es[j].title;
    }
  }

  /** The list produced by `vote` and `flag`: the updated copy first,
      then the current list, de-duplicated and sorted. */
  function Replace(es: seq<Entry>, e: Entry): seq<Entry>
  {
    OrderByTitleDesc(UniqByTitle([e] + es))
  }

  /** Putting an entry in front of a list with distinct titles, one of
      which it shares, drops the older entry of that title. */
  lemma UniqPrepend(es: seq<Entry>, k: nat, e: Entry)
    requires DistinctTitles(es) && k < |es|
    requires e.title == es[k].title
    ensures UniqByTitle([e] + es) == [e] + (es[..k] + es[k + 1..])
  {
    UniqFromDropsSeen(es, {e.title}, k);
    assert ([e] + es)[1..] == es;
    var none: set<string> := {};
    assert none + {e.title} == {e.title};
  }

  lemma UpdateAsMove(es: seq<Entry>, k: nat, e: Entry)
    requires k < |es|
    ensures multiset([e] + (es[..k] + es[k + 1..])) == multiset(es[k := e])
  {
    assert es[k := e] == es[..k] + [e] + es[k + 1..];
  }

  /** For a sorted list with distinct titles, replacing via
      uniqBy + orderBy is a point update at the entry's own position. */
  lemma ReplaceInPlace(es: seq<Entry>, k: nat, e: Entry)
    requires Descending(es) && k < |es|
    requires e.title == es[k].title
    ensures Replace(es, e) == es[k := e]
  {
    DescendingDistinct(es);
    UniqPrepend(es, k, e);
    UpdateAsMove(es, k, e);
    DescendingUpdate(es, k, e);
    var u := UniqByTitle([e] + es);
    DescendingUnique(OrderByTitleDesc(u), es[k := e]);
  }
}
