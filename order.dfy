/**
  Ordering of hash keys. The debug trace sorts each record's entries by key;
  the keys are Ruby symbols, which compare by their names character by
  character, a proper prefix first (`:area` before `:area_id`).
*/
module Order {

  /** One hash entry whose value has already been turned into text. */
  type Entry = (string, string)

  /** Lexicographic order on names: `a` sorts strictly before `b`. */
  predicate Less(a: string, b: string)
  {
    |b| > 0 && (|a| == 0 || a[0] < b[0] || (a[0] == b[0] && Less(a[1..], b[1..])))
  }

  lemma {:induction false} LessIrreflexive(a: string)
    ensures !Less(a, a)
  {
    if |a| > 0 {
      LessIrreflexive(a[1..]);
    }
  }

  lemma {:induction false} LessTransitive(a: string, b: string, c: string)
    requires Less(a, b) && Less(b, c)
    ensures Less(a, c)
  {
    if |a| > 0 && a[0] == b[0] && b[0] == c[0] {
      LessTransitive(a[1..], b[1..], c[1..]);
    }
  }

  lemma {:induction false} LessTotal(a: string, b: string)
    ensures a == b || Less(a, b) || Less(b, a)
  {
    if |a| > 0 && |b| > 0 && a[0] == b[0] {
      LessTotal(a[1..], b[1..]);
      assert a == [a[0]] + a[1..] && b == [b[0]] + b[1..];
    }
  }

  /** Keys strictly ascending, hence also no key twice. */
  predicate Ascending(s: seq<Entry>)
  {
    forall i, j :: 0 <= i < j < |s| ==> Less(s[i].0, s[j].0)
  }

  /** No key appears twice, as in any Ruby hash. */
  predicate DistinctKeys(s: seq<Entry>)
  {
    forall i, j :: 0 <= i < j < |s| ==> s[i].0 != s[j].0
  }

  /** Puts `x` in front of the first entry whose key is not below it. */
  function Insert(x: Entry, s: seq<Entry>): (r: seq<Entry>)
    ensures multiset(r) == multiset(s) + multiset{x}
  {
    if s == [] || !Less(s[0].0, x.0) then [x] + s
    else
      assert s == [s[0]] + s[1..];
      [s[0]] + Insert(x, s[1..])
  }

  /** `sort_by { |k, _| k }`: the same entries, ordered by key. */
  function SortByKey(s: seq<Entry>): (r: seq<Entry>)
    ensures multiset(r) == multiset(s)
  {
    if s == [] then []
    else
      assert s == [s[0]] + s[1..];
      Insert(s[0], SortByKey(s[1..]))
  }

  lemma {:induction false} InsertAscending(x: Entry, s: seq<Entry>)
    requires Ascending(s)
    requires forall p :: p in s ==> p.0 != x.0
    ensures Ascending(Insert(x, s))
  {
    var r := Insert(x, s);
    if s == [] {
    } else if !Less(s[0].0, x.0) {
      LessTotal(s[0].0, x.0);
      assert Less(x.0, s[0].0);
      forall j | 0 < j < |r|
        ensures Less(r[0].0, r[j].0)
      {
        if j > 1 {
          assert r[j] == s[j - 1];
          LessTransitive(x.0, s[0].0, s[j - 1].0);
        }
      }
    } else {
      var tail := s[1..];
      assert forall p :: p in tail ==> p in s;
      InsertAscending(x, tail);
      var rest := Insert(x, tail);
      assert r == [s[0]] + rest;
      forall j | 0 < j < |r|
        ensures Less(r[0].0, r[j].0)
      {
        assert r[j] == rest[j - 1];
        assert r[j] in multiset(rest);
        if r[j] != x {
          assert r[j] in tail;
          var k :| 0 <= k < |tail| && tail[k] == r[j];
          assert s[k + 1] == r[j];
        }
      }
    }
  }

  lemma {:induction false} SortAscending(s: seq<Entry>)
    requires DistinctKeys(s)
    ensures Ascending(SortByKey(s))
  {
    if s != [] {
      var tail := s[1..];
      SortAscending(tail);
      forall p | p in SortByKey(tail)
        ensures p.0 != s[0].0
      {
        assert p in multiset(SortByKey(tail));
        var k :| 0 <= k < |tail| && tail[k] == p;
        assert s[k + 1] == p;
      }
      InsertAscending(s[0], SortByKey(tail));
    }
  }

  /** Removing the first entry of an ascending list removes exactly that entry. */
  lemma AscendingTail(s: seq<Entry>, p: Entry)
    requires Ascending(s) && s != []
    ensures p in s[1..] <==> p in s && p != s[0]
  {
    if p in s[1..] {
      var k :| 0 <= k < |s| - 1 && s[k + 1] == p;
      LessIrreflexive(s[0].0);
    }
    if p in s && p != s[0] {
      var k :| 0 <= k < |s| && s[k] == p;
      assert s[1..][k - 1] == p;
    }
  }

  /**
    An ascending list is determined by its entries: two ascending lists with
    the same entries are equal, whatever order the entries came in.
  */
  lemma {:induction false} AscendingUnique(s: seq<Entry>, t: seq<Entry>)
    requires Ascending(s) && Ascending(t)
    requires forall p :: p in s <==> p in t
    ensures s == t
  {
    assert s != [] ==> s[0] in t;
    assert t != [] ==> t[0] in s;
    if s != [] {
      var k :| 0 <= k < |s| && s[k] == t[0];
      var m :| 0 <= m < |t| && t[m] == s[0];
      if k > 0 && m > 0 {
        LessTransitive(s[0].0, t[0].0, s[0].0);
        LessIrreflexive(s[0].0);
      }
      assert s[0] == t[0];
      forall p
        ensures p in s[1..] <==> p in t[1..]
      {
        AscendingTail(s, p);
        AscendingTail(t, p);
      }
      AscendingUnique(s[1..], t[1..]);
      assert s == [s[0]] + s[1..] && t == [t[0]] + t[1..];
    }
  }
}
