/** Address space identifiers of virtual machines, kept in one bitmap (kernel/src/vm/svm/utils.rs). */
module AddressSpaceIds {
  import opened MachineInts

  const ENTRIES: nat := 32

  /** `BITMAP_ENTRIES`, bit by bit: entry `i` holds the identifiers from `64 * i + 1` on. */
  class AsidBitmap {
    const entries: array<seq<bool>>

    /** The identifiers that were handed out and not returned. */
    ghost var live: set<nat>

    ghost predicate Valid()
      reads this, entries
    {
      && entries.Length == ENTRIES
      && (forall i :: 0 <= i < ENTRIES ==> |entries[i]| == 64)
      && (forall asid :: asid in live ==> 1 <= asid <= 64 * ENTRIES)
      && forall i: nat, bit: nat :: i < ENTRIES && bit < 64 ==> (entries[i][bit] <==> AsidAt(i, bit) in live)
    }

    constructor ()
      ensures Valid() && live == {} && fresh(entries)
    {
      entries := new seq<bool>[ENTRIES](i => seq(64, j => false));
      live := {};
    }

    /** `Asid::new`: the lowest identifier that is not in use, if the processor has it. */
    method New(nrAsids: nat) returns (r: Option<nat>)
      requires Valid()
      modifies entries, `live
      ensures Valid()
      ensures r.Some? ==>
        && 1 <= r.value < nrAsids && r.value !in old(live) && live == old(live) + {r.value}
        && forall asid :: 1 <= asid < r.value ==> asid in old(live)
      ensures r.None? ==> live == old(live)
      ensures r.None? <==> forall asid :: 1 <= asid < Min(nrAsids, 64 * ENTRIES + 1) ==> asid in old(live)
    {
      for index := 0 to ENTRIES
        invariant Valid() && live == old(live)
        invariant forall asid :: 1 <= asid <= 64 * index ==> asid in live
      {
        if entries[index] == seq(64, i => true) {
          FullEntry(entries[index], index, live);
          continue;
        }
        for bit := 0 to 64
          invariant Valid() && live == old(live)
          invariant forall b :: 0 <= b < bit ==> entries[index][b]
          invariant forall asid :: 1 <= asid <= 64 * index + bit ==> asid in live
        {
          var asid := AsidAt(index, bit);
          if !entries[index][bit] {
            if asid >= nrAsids { return None; }
            entries[index] := entries[index][bit := true];
            live := live + {asid};
            forall i: nat, b: nat | i < ENTRIES && b < 64 ensures entries[i][b] <==> AsidAt(i, b) in live {
              AsidsDiffer(i, b, index, bit);
            }
            return Some(asid);
          }
          NextAsid(index, bit);
        }
      }
      return None;
    }

    /** `Asid::drop` */
    method Drop(asid: nat)
      requires Valid() && asid in live
      modifies entries, `live
      ensures Valid() && live == old(live) - {asid}
    {
      var value := asid - 1;
      var index, bit := value / 64, value % 64;
      assert AsidAt(index, bit) == asid;
      entries[index] := entries[index][bit := false];
      live := live - {asid};
      forall i: nat, b: nat | i < ENTRIES && b < 64 ensures entries[i][b] <==> AsidAt(i, b) in live {
        AsidsDiffer(i, b, index, bit);
      }
    }
  }

  function AsidAt(index: nat, bit: nat): nat { index * 64 + bit + 1 }

  lemma AsidsDiffer(i: nat, b: nat, j: nat, c: nat)
    requires b < 64 && c < 64
    ensures AsidAt(i, b) == AsidAt(j, c) <==> i == j && b == c
  {
  }

  lemma NextAsid(index: nat, bit: nat)
    ensures AsidAt(index, bit) == 64 * index + bit + 1
  {
  }

  /** A full entry has none of its identifiers to give. */
  lemma FullEntry(entry: seq<bool>, index: nat, live: set<nat>)
    requires entry == seq(64, i => true)
    requires forall bit: nat :: bit < 64 ==> (entry[bit] <==> AsidAt(index, bit) in live)
    ensures forall asid :: 64 * index + 1 <= asid <= 64 * (index + 1) ==> asid in live
  {
    forall asid | 64 * index + 1 <= asid <= 64 * (index + 1) ensures asid in live {
      var bit := asid - 1 - 64 * index;
      assert AsidAt(index, bit) == asid;
    }
  }
}
