/**
  Identifier reconciliation: `MemberList#parties` and `MemberList#areas`
  turn the member list's own records into label-to-identifier tables, and the
  fill pass gives every record with a `nil` party or area identifier the one
  the table has for its label.
*/
module Reconcile {
  import opened Wrappers
  import opened Rows

  /** Which label and identifier of a record a table is built from. */
  datatype Ref = PartyRef | AreaRef

  function Label(r: Record, k: Ref): string
  {
    match k
    case PartyRef => r.party
    case AreaRef => r.area
  }

  function Id(r: Record, k: Ref): Option<string>
  {
    match k
    case PartyRef => r.partyId
    case AreaRef => r.areaId
  }

  /** `members.reject { |m| m[id].nil? }.map { |m| [m[label], m[id]] }` */
  function IdPairs(ms: seq<Record>, k: Ref): (pairs: seq<(string, string)>)
    ensures |pairs| <= |ms|
  {
    if ms == [] then []
    else
      var last := ms[|ms| - 1];
      IdPairs(ms[..|ms| - 1], k) + (if Id(last, k).Some? then [(Label(last, k), Id(last, k).value)] else [])
  }

  /** `to_h`: each pair in turn is stored under its key, so a later pair overwrites an earlier one. */
  function ToH(pairs: seq<(string, string)>): (h: map<string, string>)
    ensures |h| <= |pairs|
    ensures forall p :: p in pairs ==> p.0 in h
  {
    if pairs == [] then map[]
    else ToH(pairs[..|pairs| - 1])[pairs[|pairs| - 1].0 := pairs[|pairs| - 1].1]
  }

  function IdTable(ms: seq<Record>, k: Ref): (table: map<string, string>)
    ensures |table| <= |ms|
  {
    ToH(IdPairs(ms, k))
  }

  /** `MemberList#parties`: party label to party identifier. */
  function PartyIds(ms: seq<Record>): (parties: map<string, string>)
    ensures |parties| <= |ms|
  {
    IdTable(ms, PartyRef)
  }

  /** `MemberList#areas`: constituency label to constituency identifier. */
  function AreaIds(ms: seq<Record>): (areas: map<string, string>)
    ensures |areas| <= |ms|
  {
    IdTable(ms, AreaRef)
  }

  /** Appending a member: one with an identifier overwrites its label's entry, one without changes nothing. */
  lemma IdTableSnoc(ms: seq<Record>, x: Record, k: Ref)
    ensures IdTable(ms + [x], k) ==
      if Id(x, k).Some? then IdTable(ms, k)[Label(x, k) := Id(x, k).value] else IdTable(ms, k)
  {
    assert (ms + [x])[..|ms|] == ms;
    var p := IdPairs(ms, k);
    if Id(x, k).Some? {
      var q := p + [(Label(x, k), Id(x, k).value)];
      assert q[..|q| - 1] == p;
    } else {
      assert p + [] == p;
    }
  }

  /** A label has an entry exactly when some member carries it together with a non-nil identifier. */
  lemma {:induction false} IdTableKeys(ms: seq<Record>, k: Ref, key: string)
    ensures key in IdTable(ms, k) <==>
      exists i :: 0 <= i < |ms| && Label(ms[i], k) == key && Id(ms[i], k).Some?
  {
    if ms != [] {
      var init, x := ms[..|ms| - 1], ms[|ms| - 1];
      assert ms == init + [x];
      IdTableSnoc(init, x, k);
      IdTableKeys(init, k, key);
      assert forall i :: 0 <= i < |init| ==> init[i] == ms[i];
      if Id(x, k).Some? && Label(x, k) == key {
        assert key in IdTable(ms, k);
      } else if exists i :: 0 <= i < |ms| && Label(ms[i], k) == key && Id(ms[i], k).Some? {
        var i :| 0 <= i < |ms| && Label(ms[i], k) == key && Id(ms[i], k).Some?;
        assert i < |init|;
      }
    }
  }

  /** A repeated label keeps the identifier of its last member that has one. */
  lemma {:induction false} IdTableLast(ms: seq<Record>, k: Ref, i: nat)
    requires i < |ms| && Id(ms[i], k).Some?
    requires forall j :: i < j < |ms| ==> Label(ms[j], k) != Label(ms[i], k) || Id(ms[j], k).None?
    ensures Label(ms[i], k) in IdTable(ms, k)
    ensures IdTable(ms, k)[Label(ms[i], k)] == Id(ms[i], k).value
  {
    var init, x := ms[..|ms| - 1], ms[|ms| - 1];
    assert ms == init + [x];
    IdTableSnoc(init, x, k);
    if i < |ms| - 1 {
      assert init[i] == ms[i];
      IdTableLast(init, k, i);
    }
  }

  /**
    One turn of the fill pass: `mem[:party_id] ||= parties[mem[:party]]`
    and `mem[:area_id] ||= areas[mem[:area]]`. `||=` assigns only over
    `nil`; an empty string is kept.
  */
  function Filled(r: Record, parties: map<string, string>, areas: map<string, string>): (f: Record)
    ensures r.partyId.Some? ==> f.partyId == r.partyId
    ensures r.areaId.Some? ==> f.areaId == r.areaId
    ensures r.partyId.None? ==> (f.partyId.Some? <==> r.party in parties) &&
                                (r.party in parties ==> f.partyId.value == parties[r.party])
    ensures r.areaId.None? ==> (f.areaId.Some? <==> r.area in areas) &&
                               (r.area in areas ==> f.areaId.value == areas[r.area])
    ensures f.(partyId := r.partyId, areaId := r.areaId) == r
  {
    var withParty := if r.partyId.None? then r.(partyId := Get(parties, r.party)) else r;
    if withParty.areaId.None? then withParty.(areaId := Get(areas, withParty.area)) else withParty
  }

  /** The fill pass over the whole output: every record is filled, none added, dropped or moved. */
  function FillAll(rs: seq<Record>, parties: map<string, string>, areas: map<string, string>): (r: seq<Record>)
    ensures |r| == |rs|
    ensures forall i :: 0 <= i < |rs| ==> r[i] == Filled(rs[i], parties, areas)
  {
    if rs == [] then []
    else [Filled(rs[0], parties, areas)] + FillAll(rs[1..], parties, areas)
  }

  /** With the tables fixed, filling twice is filling once. */
  lemma FillAllIdempotent(rs: seq<Record>, parties: map<string, string>, areas: map<string, string>)
    ensures FillAll(FillAll(rs, parties, areas), parties, areas) == FillAll(rs, parties, areas)
  {
  }

  /** Filling commutes with concatenation: each part of the output is filled on its own. */
  lemma FillAllAppend(a: seq<Record>, b: seq<Record>, parties: map<string, string>, areas: map<string, string>)
    ensures FillAll(a + b, parties, areas) == FillAll(a, parties, areas) + FillAll(b, parties, areas)
  {
  }

  /**
    The scraped member list. Its tables are memoised (`@areas ||=`,
    `@parties ||=`): built on first use and kept afterwards.
  */
  class MemberList {
    const members: seq<Record>
    var areasMemo: Option<map<string, string>>
    var partiesMemo: Option<map<string, string>>

    /** A memoised table is always the one built from the members. */
    ghost predicate Valid()
      reads this
    {
      && (areasMemo.Some? ==> areasMemo.value == AreaIds(members))
      && (partiesMemo.Some? ==> partiesMemo.value == PartyIds(members))
    }

    constructor (members: seq<Record>)
      ensures Valid() && this.members == members
      ensures areasMemo.None? && partiesMemo.None?
    {
      this.members := members;
      areasMemo := None;
      partiesMemo := None;
    }

    /** `MemberList#areas`. */
    method Areas() returns (m: map<string, string>)
      requires Valid()
      modifies this
      ensures Valid()
      ensures m == AreaIds(members) && areasMemo == Some(m)
      ensures partiesMemo == old(partiesMemo)
    {
      if areasMemo.None? {
        areasMemo := Some(AreaIds(members));
      }
      m := areasMemo.value;
    }

    /** `MemberList#parties`. */
    method Parties() returns (m: map<string, string>)
      requires Valid()
      modifies this
      ensures Valid()
      ensures m == PartyIds(members) && partiesMemo == Some(m)
      ensures areasMemo == old(areasMemo)
    {
      if partiesMemo.None? {
        partiesMemo := Some(PartyIds(members));
      }
      m := partiesMemo.value;
    }
  }

  /**
    The `data.each` loop: each record is updated in place, and a table is
    asked for only when the record's identifier is `nil` (the right-hand side
    of `||=` is not evaluated otherwise).
  */
  method FillIdentifiers(data: array<Record>, list: MemberList)
    requires list.Valid()
    modifies data, list
    ensures list.Valid()
    ensures data[..] == FillAll(old(data[..]), PartyIds(list.members), AreaIds(list.members))
  {
    ghost var parties, areas := PartyIds(list.members), AreaIds(list.members);
    var i := 0;
    while i < data.Length
      invariant 0 <= i <= data.Length
      invariant list.Valid()
      invariant forall j :: 0 <= j < i ==> data[j] == Filled(old(data[j]), parties, areas)
      invariant forall j :: i <= j < data.Length ==> data[j] == old(data[j])
    {
      if data[i].partyId.None? {
        var table := list.Parties();
        data[i] := data[i].(partyId := Get(table, data[i].party));
      }
      if data[i].areaId.None? {
        var table := list.Areas();
        data[i] := data[i].(areaId := Get(table, data[i].area));
      }
      i := i + 1;
    }
  }
}
