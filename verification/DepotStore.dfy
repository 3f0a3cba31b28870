/** The manager's depot key store: a sorted index loaded from a file, extended by local keys, and queried. */
module DepotStore {
  import opened Words
  import opened TextCodecs
  import opened DepotKeys

  // ---- local keys -----------------------------------------------------------------------------

  /** A key found in the local client's configuration: the depot it was listed under and its text. */
  datatype LocalKey = LocalKey(id: u32, hex: seq<byte>)

  predicate Importable(k: LocalKey) {
    k.id != 0 && |FromHex(k.hex)| == KEY
  }

  /** The first position whose id is not below `id`. */
  function LowerIndex(rs: seq<KeyRecord>, id: u32): (i: nat)
    ensures i <= |rs|
  {
    if rs == [] || rs[0].id >= id then 0 else 1 + LowerIndex(rs[1..], id)
  }

  lemma {:induction false} LowerIndexIsLowerBound(rs: seq<KeyRecord>, id: u32, i: nat)
    requires IsLowerBound(rs, id, i)
    ensures LowerIndex(rs, id) == i
  {
    if i > 0 {
      LowerIndexIsLowerBound(rs[1..], id, i - 1);
    }
  }

  /** Importing one key: put in at its place unless its depot already has a key. */
  function Imported(rs: seq<KeyRecord>, k: LocalKey): seq<KeyRecord> {
    if Importable(k) && Find(rs, k.id).None?
    then Inserted(rs, KeyRecord(k.id, FromHex(k.hex)), LowerIndex(rs, k.id))
    else rs
  }

  function ImportedAll(rs: seq<KeyRecord>, ks: seq<LocalKey>): seq<KeyRecord> {
    if ks == [] then rs else Imported(ImportedAll(rs, ks[..|ks| - 1]), ks[|ks| - 1])
  }

  /** The key the local configuration has for `d`: the first one listed under it with 64 digits, or an odd one more. */
  function FirstLocal(ks: seq<LocalKey>, d: u32): Option<seq<byte>> {
    if ks == [] then None
    else if FirstLocal(ks[..|ks| - 1], d).Some? then FirstLocal(ks[..|ks| - 1], d)
    else if ks[|ks| - 1].id == d && d != 0 && |ks[|ks| - 1].hex| in {64, 65} then Some(FromHex(ks[|ks| - 1].hex))
    else None
  }

  lemma ImportableIff(k: LocalKey)
    ensures Importable(k) <==> k.id != 0 && |k.hex| in {64, 65}
  {
  }

  lemma {:induction false} FindInserted(rs: seq<KeyRecord>, r: KeyRecord, k: nat, d: u32)
    requires k <= |rs| && forall j :: 0 <= j < k ==> rs[j].id != r.id
    ensures Find(Inserted(rs, r, k), d) == if d == r.id then Some(r.key) else Find(rs, d)
  {
    var out := Inserted(rs, r, k);
    if k == 0 {
      assert out == [r] + rs;
      assert out[1..] == rs;
    } else {
      FindInserted(rs[1..], r, k - 1, d);
      assert out[1..] == Inserted(rs[1..], r, k - 1);
      assert out[0] == rs[0];
    }
  }

  lemma LowerIndexBounds(rs: seq<KeyRecord>, id: u32) returns (i: nat)
    requires Sorted(rs)
    ensures IsLowerBound(rs, id, i) && i == LowerIndex(rs, id)
    ensures Find(rs, id).Some? <==> i < |rs| && rs[i].id == id
  {
    i := FindLowerBound(rs, id);
    LowerIndexIsLowerBound(rs, id, i);
    FindAtLowerBound(rs, id, i);
  }

  lemma {:induction false} FindLowerBound(rs: seq<KeyRecord>, id: u32) returns (i: nat)
    requires Sorted(rs)
    ensures IsLowerBound(rs, id, i)
  {
    if rs == [] || rs[0].id >= id {
      i := 0;
    } else {
      var rest := rs[1..];
      var k := FindLowerBound(rest, id);
      i := k + 1;
      assert forall j :: 1 <= j < |rs| ==> rs[j] == rest[j - 1];
    }
  }

  lemma ImportedLookup(rs: seq<KeyRecord>, k: LocalKey, d: u32)
    requires Sorted(rs)
    ensures Sorted(Imported(rs, k)) && (StrictlySorted(rs) ==> StrictlySorted(Imported(rs, k)))
    ensures Find(Imported(rs, k), d) ==
            if Find(rs, d).None? && k.id == d && Importable(k) then Some(FromHex(k.hex)) else Find(rs, d)
  {
    hide Find, Inserted, LowerIndex, Sorted, StrictlySorted, Importable;
    if Importable(k) && Find(rs, k.id).None? {
      var i := LowerIndexBounds(rs, k.id);
      var r := KeyRecord(k.id, FromHex(k.hex));
      InsertedSorted(rs, r, i);
      if StrictlySorted(rs) {
        InsertedStrictlySorted(rs, r, i);
      }
      FindInserted(rs, r, i, d);
    }
  }

  /** Imports keep the index ordered, never overwrite, and for a depot without a key take the first one listed. */
  lemma {:induction false} ImportNeverOverwrites(rs: seq<KeyRecord>, ks: seq<LocalKey>, d: u32)
    requires Sorted(rs)
    ensures Sorted(ImportedAll(rs, ks)) && (StrictlySorted(rs) ==> StrictlySorted(ImportedAll(rs, ks)))
    ensures Find(ImportedAll(rs, ks), d) == if Find(rs, d).Some? then Find(rs, d) else FirstLocal(ks, d)
  {
    hide Find, Sorted, StrictlySorted, Importable, Imported;
    if ks != [] {
      var front := ks[..|ks| - 1];
      ImportNeverOverwrites(rs, front, d);
      ImportableIff(ks[|ks| - 1]);
      ImportedLookup(ImportedAll(rs, front), ks[|ks| - 1], d);
    }
  }

  // ---- the store --------------------------------------------------------------------------------

  /** The depots an app query is specified to return. */
  predicate Wanted(rs: seq<KeyRecord>, appId: u32, dlcIds: seq<u32>, d: u32) {
    || (appId > 0 && InScan(rs, appId, APP_SCAN_RANGE, d))
    || WantedByDlc(rs, dlcIds, |dlcIds|, d)
  }

  predicate WantedByDlc(rs: seq<KeyRecord>, dlcIds: seq<u32>, n: nat, d: u32) {
    exists i :: 0 <= i < n && i < |dlcIds| && dlcIds[i] > 0 && InScan(rs, dlcIds[i], DLC_SCAN_RANGE, d)
  }

  class DepotKeyStore {
    var records: seq<KeyRecord>
    var initialized: bool

    ghost predicate Valid()
      reads this
    {
      Sorted(records)
    }

    constructor ()
      ensures Valid() && records == [] && !initialized
    {
      records := [];
      initialized := false;
    }

    /** Takes over an accepted buffer; a rejected one leaves the index as it was. */
    method ParseBinaryContent(data: seq<byte>) returns (ok: bool)
      requires Valid()
      modifies this`records
      ensures Valid() && ok == Accepts(data)
      ensures !ok ==> records == old(records)
      ensures ok ==> multiset(records) == multiset(RawRecords(data, CountOf(data)))
      ensures ok && DistinctIds(RawRecords(data, CountOf(data))) ==> StrictlySorted(records)
    {
      hide Load32, RawRecords, Sorted, StrictlySorted, DistinctIds;
      if |data| < HEADER {
        return false;
      }
      if Load32(data[..4]) != OMKY_MAGIC {
        return false;
      }
      if Load32(data[4..8]) != CURRENT_VERSION {
        return false;
      }
      var count := Load32(data[8..12]);
      if count > MAX_RECORD_COUNT {
        return false;
      }
      if |data| < HEADER + count * RECORD {
        return false;
      }
      var copied := CopyRecords(data, count);
      records := SortRecords(copied);
      return true;
    }

    /** One key of the local configuration. */
    method ImportKey(k: LocalKey)
      requires Valid()
      modifies this`records
      ensures Valid() && records == Imported(old(records), k)
    {
      hide Find, Inserted, LowerIndex, Sorted, StrictlySorted, FromHex;
      ImportedLookup(records, k, 0);
      if k.id != 0 {
        var keyBytes := HexToBytes(k.hex);
        if |keyBytes| == KEY {
          var it := LowerBound(records, k.id);
          LowerIndexIsLowerBound(records, k.id, it);
          FindAtLowerBound(records, k.id, it);
          if it == |records| || records[it].id != k.id {
            records := Inserted(records, KeyRecord(k.id, keyBytes), it);
          }
        }
      }
    }

    method ImportKeysFromConfig(found: seq<LocalKey>)
      requires Valid()
      modifies this`records
      ensures Valid() && records == ImportedAll(old(records), found)
    {
      hide Imported, Sorted;
      var i := 0;
      assert found[..0] == [];
      while i < |found|
        invariant i <= |found| && Valid() && records == ImportedAll(old(records), found[..i])
      {
        assert found[..i + 1][..i] == found[..i];
        ImportKey(found[i]);
        i := i + 1;
      }
      assert found[..i] == found;
    }

    method GetKeyForDepot(id: u32) returns (text: seq<byte>)
      requires Valid()
      ensures text == if initialized then KeyText(records, id) else []
    {
      hide ToHex, Find;
      if !initialized {
        return [];
      }
      var it := LowerBound(records, id);
      FindAtLowerBound(records, id, it);
      if it < |records| && records[it].id == id {
        text := BytesToHex(records[it].key);
        return;
      }
      return [];
    }

    method FindDepotKeysForApp(appId: u32, dlcIds: seq<u32>) returns (result: map<u32, seq<byte>>)
      requires Valid()
      ensures Collected(result, records)
      ensures forall d: u32 :: d in result <==> Wanted(records, appId, dlcIds, d)
    {
      hide Collected, Sorted, InScan, WantedByDlc;
      result := map[];
      NothingCollected(records);
      if records == [] {
        EmptyFindsNothing(appId, dlcIds);
        return;
      }
      if appId > 0 {
        result := ScanRange(records, appId, APP_SCAN_RANGE, result);
      }
      var i := 0;
      DlcsBegin(records, dlcIds);
      while i < |dlcIds|
        invariant i <= |dlcIds| && Collected(result, records)
        invariant forall d: u32 :: d in result <==>
                                   (appId > 0 && InScan(records, appId, APP_SCAN_RANGE, d)) ||
                                   WantedByDlc(records, dlcIds, i, d)
      {
        DlcsOneMore(records, dlcIds, i);
        if dlcIds[i] > 0 {
          result := ScanRange(records, dlcIds[i], DLC_SCAN_RANGE, result);
        }
        i := i + 1;
      }
    }

    method FindKeysForDepotIds(ids: seq<u32>) returns (result: map<u32, seq<byte>>)
      requires Valid()
      ensures forall d: u32 :: d in result <==> d in ids && Holds(records, d)
      ensures forall d: u32 :: d in result ==> result[d] == KeyText(records, d)
    {
      hide Holds, Find, Sorted, ToHex;
      result := map[];
      if records == [] || ids == [] {
        NothingHeld(records, ids);
        return;
      }
      var i := 0;
      while i < |ids|
        invariant i <= |ids|
        invariant forall d: u32 :: d in result <==> d in ids[..i] && Holds(records, d)
        invariant forall d: u32 :: d in result ==> result[d] == KeyText(records, d)
      {
        var id := ids[i];
        var it := LowerBound(records, id);
        FindAtLowerBound(records, id, it);
        if it < |records| && records[it].id == id {
          var text := BytesToHex(records[it].key);
          result := result[id := text];
        }
        assert ids[..i + 1] == ids[..i] + [id];
        i := i + 1;
      }
      assert ids[..i] == ids;
    }
  }

  method CopyRecords(data: seq<byte>, count: nat) returns (rs: seq<KeyRecord>)
    requires |data| >= HEADER + count * RECORD
    ensures rs == RawRecords(data, count)
  {
    hide RecordAt;
    rs := [];
    var i := 0;
    while i < count
      invariant i <= count && rs == RawRecords(data, i)
    {
      rs := rs + [RecordAt(data, HEADER + i * RECORD)];
      i := i + 1;
    }
  }

  lemma NothingCollected(rs: seq<KeyRecord>)
    ensures Collected(map[], rs)
  {
  }

  lemma EmptyFindsNothing(appId: u32, dlcIds: seq<u32>)
    ensures forall d: u32 :: !Wanted([], appId, dlcIds, d)
  {
  }

  lemma NothingHeld(rs: seq<KeyRecord>, ids: seq<u32>)
    requires rs == [] || ids == []
    ensures forall d: u32 :: !(d in ids && Holds(rs, d))
  {
  }

  lemma DlcsBegin(rs: seq<KeyRecord>, dlcIds: seq<u32>)
    ensures forall d: u32 :: !WantedByDlc(rs, dlcIds, 0, d)
  {
  }

  lemma DlcsOneMore(rs: seq<KeyRecord>, dlcIds: seq<u32>, i: nat)
    requires i < |dlcIds|
    ensures forall d: u32 :: WantedByDlc(rs, dlcIds, i + 1, d) <==>
                             WantedByDlc(rs, dlcIds, i, d) ||
                             (dlcIds[i] > 0 && InScan(rs, dlcIds[i], DLC_SCAN_RANGE, d))
  {
    hide InScan;
  }
}
