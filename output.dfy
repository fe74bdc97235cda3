/**
  The script's top level: the two tables are scraped, their records
  concatenated, the missing identifiers filled from the member list's
  tables, and, for the debug trace, each record shown without its empty
  fields and with its keys sorted.
*/
module Output {
  import opened Wrappers
  import opened Dom
  import opened Rows
  import opened Order
  import opened Reconcile

  /** `member_list.members + membership_changes.members` */
  function Combine(members: seq<Record>, changes: seq<Record>): (data: seq<Record>)
    ensures |data| == |members| + |changes|
    ensures data[..|members|] == members && data[|members|..] == changes
  {
    members + changes
  }

  /** Two records that differ at most in their party and area identifiers. */
  predicate SameApartFromIds(a: Record, b: Record)
  {
    a.(partyId := None, areaId := None) == b.(partyId := None, areaId := None)
  }

  /**
    Shape of the output: as many records as both tables gave, the member
    list's first and then the changes, each in table order, each changed at
    most in its identifiers.
  */
  lemma OutputOrder(members: seq<Record>, changes: seq<Record>, parties: map<string, string>, areas: map<string, string>)
    ensures var out := FillAll(Combine(members, changes), parties, areas);
      && |out| == |members| + |changes|
      && (forall i :: 0 <= i < |members| ==> SameApartFromIds(out[i], members[i]))
      && (forall i :: 0 <= i < |changes| ==> SameApartFromIds(out[|members| + i], changes[i]))
  {
  }

  /**
    The top-level script, given the rows of the two tables: scrape the member
    list, then the changes (the first failure stops the run), concatenate,
    and fill the identifiers in place from the member list's tables.
  */
  method Scrape(memberRows: seq<Row>, changeRows: seq<Row>, ext: Externals)
    returns (res: Result<seq<Record>, Failure>)
    ensures var members, changes := Records(MemberTable, memberRows, ext), Records(ChangeTable, changeRows, ext);
      && (members.Failure? ==> res == Failure(members.error))
      && (members.Success? && changes.Failure? ==> res == Failure(changes.error))
      && (members.Success? && changes.Success? ==>
            res == Success(FillAll(Combine(members.value, changes.value), PartyIds(members.value), AreaIds(members.value))))
  {
    var members := Records(MemberTable, memberRows, ext);
    if members.Failure? {
      return Failure(members.error);
    }
    var changes := Records(ChangeTable, changeRows, ext);
    if changes.Failure? {
      return Failure(changes.error);
    }
    var data := Combine(members.value, changes.value);
    var buffer := new Record[|data|](i requires 0 <= i < |data| => data[i]);
    assert buffer[..] == data;
    var list := new MemberList(members.value);
    FillIdentifiers(buffer, list);
    res := Success(buffer[..]);
  }

  /** A hash entry before `to_s`: a key and a value that may be `nil`. */
  type Field = (string, Option<string>)

  /** A record as the hash `to_h` builds, keys in the order `MemberRow` declares its fields. */
  function Hash(r: Record): (h: seq<Field>)
    ensures |h| == 8
    ensures FieldKeysDistinct(h)
  {
    [("id", r.id), ("name", Some(r.name)), ("area_id", r.areaId), ("area", Some(r.area)),
     ("region", Some(r.region)), ("party_id", r.partyId), ("party", Some(r.party)), ("start_date", r.startDate)]
  }

  /** `v.to_s`: `nil` prints as the empty string. */
  function ToS(v: Option<string>): string
  {
    match v
    case None => ""
    case Some(s) => s
  }

  /** No key twice, as in any hash. */
  predicate FieldKeysDistinct(h: seq<Field>)
  {
    forall i, j :: 0 <= i < j < |h| ==> h[i].0 != h[j].0
  }

  /** `reject { |_, v| v.to_s.empty? }`: the entries that print as something. */
  function Shown(h: seq<Field>): (shown: seq<Entry>)
    ensures |shown| <= |h|
  {
    if h == [] then []
    else if ToS(h[0].1) == "" then Shown(h[1..])
    else [(h[0].0, h[0].1.value)] + Shown(h[1..])
  }

  /** The entries kept are exactly those whose value is neither `nil` nor empty, and keys stay distinct. */
  lemma {:induction false} ShownSpec(h: seq<Field>)
    ensures forall k, s :: (k, s) in Shown(h) <==> (k, Some(s)) in h && s != ""
    ensures FieldKeysDistinct(h) ==> DistinctKeys(Shown(h))
  {
    if h != [] {
      var tail := h[1..];
      ShownSpec(tail);
      assert h == [h[0]] + tail;
      if FieldKeysDistinct(h) {
        forall e | e in Shown(tail)
          ensures e.0 != h[0].0
        {
          assert (e.0, Some(e.1)) in tail;
          var k :| 0 <= k < |tail| && tail[k] == (e.0, Some(e.1));
          assert h[k + 1] == tail[k];
        }
        assert FieldKeysDistinct(tail) by {
          forall i, j | 0 <= i < j < |tail|
            ensures tail[i].0 != tail[j].0
          {
            assert tail[i] == h[i + 1] && tail[j] == h[j + 1];
          }
        }
        var s := Shown(h);
        if ToS(h[0].1) != "" {
          forall i, j | 0 <= i < j < |s|
            ensures s[i].0 != s[j].0
          {
            if i == 0 {
              assert s[j] in Shown(tail);
            }
          }
        }
      }
    }
  }

  /** Sort the entries that print as something by key. */
  function Project(h: seq<Field>): (p: seq<Entry>)
    ensures |p| <= |h|
  {
    var sorted := SortByKey(Shown(h));
    assert |multiset(sorted)| == |multiset(Shown(h))|;
    sorted
  }

  /** The debug trace of one record (the part of line 169 that is not I/O). */
  function DebugView(r: Record): (view: seq<Entry>)
    ensures |view| <= 8
  {
    Project(Hash(r))
  }

  /**
    The trace of a hash holds exactly its entries whose value prints as
    something, keys strictly ascending.
  */
  lemma ProjectSpec(h: seq<Field>)
    requires FieldKeysDistinct(h)
    ensures Ascending(Project(h))
    ensures forall e :: e in Project(h) <==> (e.0, Some(e.1)) in h && e.1 != ""
  {
    ShownSpec(h);
    SortAscending(Shown(h));
    forall e
      ensures e in Project(h) <==> (e.0, Some(e.1)) in h && e.1 != ""
    {
      assert e in Project(h) <==> e in multiset(Shown(h));
      assert e == (e.0, e.1);
    }
  }

  /**
    A hash's trace does not depend on the order its keys were inserted in:
    a membership-change record, whose keys come in another order, prints
    like a member record with the same entries.
  */
  lemma ProjectIgnoresOrder(h1: seq<Field>, h2: seq<Field>)
    requires FieldKeysDistinct(h1) && FieldKeysDistinct(h2)
    requires forall e :: e in h1 <==> e in h2
    ensures Project(h1) == Project(h2)
  {
    ProjectSpec(h1);
    ProjectSpec(h2);
    AscendingUnique(Project(h1), Project(h2));
  }

  /**
    The debug trace of a record keeps exactly its fields that are neither
    `nil` nor `""`, in ascending key order.
  */
  lemma DebugViewSpec(r: Record)
    ensures Ascending(DebugView(r))
    ensures forall e :: e in DebugView(r) <==> (e.0, Some(e.1)) in Hash(r) && e.1 != ""
  {
    ProjectSpec(Hash(r));
  }
}
