/**
  First-fit assignment of small-file records to packed blocks
  (PackedBlockAllocator in src/ezfa3fs_packed_block.cpp) and what it guarantees: every record is
  placed exactly once, every bin can be encoded, bins are dense, and repacking the live records
  of some blocks never needs more blocks than they came from.
 */
module BinPacking {
  import opened Bytes
  import opened PackedBlock

  /** Record indexes per bin, and the encoded length of each bin. */
  datatype Plan = Plan(bins: seq<seq<nat>>, used: seq<nat>)

  predicate Eligible(r: Record)
  {
    r.id != 0 && 0 < |r.bytes| <= THRESHOLD
  }

  /** What the planner accepts. */
  predicate Plannable(records: seq<Record>)
  {
    DistinctIds(records) && AllEligible(records)
  }

  /** The first bin from `b` on with room for `size` more bytes. */
  function FirstFit(used: seq<nat>, size: nat, b: nat): (r: nat)
    requires b <= |used| && forall u :: u in used ==> u <= BLOCK_SIZE
    ensures b <= r <= |used|
    ensures forall c :: b <= c < r ==> size > BLOCK_SIZE - used[c]
    ensures r < |used| ==> size <= BLOCK_SIZE - used[r]
    decreases |used| - b
  {
    if b == |used| || size <= BLOCK_SIZE - used[b] then b else FirstFit(used, size, b + 1)
  }

  predicate Sound(p: Plan)
  {
    |p.bins| == |p.used| && forall u :: u in p.used ==> u <= BLOCK_SIZE
  }

  function Place(p: Plan, index: nat, size: nat): (q: Plan)
    requires Sound(p) && size <= BLOCK_SIZE - HEADER_SIZE
    ensures Sound(q)
  {
    var b := FirstFit(p.used, size, 0);
    if b < |p.used| then
      var used := p.used[b := p.used[b] + size];
      assert forall u :: u in used ==> u == p.used[b] + size || u in p.used;
      Plan(p.bins[b := p.bins[b] + [index]], used)
    else Plan(p.bins + [[index]], p.used + [HEADER_SIZE + size])
  }

  function SizeOf(r: Record): nat
  {
    EncodedRecordSize(|r.bytes|)
  }

  lemma EligibleSize(r: Record)
    requires Eligible(r)
    ensures RECORD_HEADER_SIZE < SizeOf(r) <= RECORD_HEADER_SIZE + THRESHOLD
  {}

  predicate AllEligible(records: seq<Record>)
  {
    forall k :: 0 <= k < |records| ==> Eligible(records[k])
  }

  /** The plan after placing all records in order. */
  function PlanOf(records: seq<Record>): (p: Plan)
    requires AllEligible(records)
    ensures Sound(p)
  {
    if records == [] then Plan([], [])
    else
      var last := |records| - 1;
      EligibleSize(records[last]);
      Place(PlanOf(records[..last]), last, SizeOf(records[last]))
  }

  function BinRecords(records: seq<Record>, bin: seq<nat>): (s: seq<Record>)
    requires forall k :: 0 <= k < |bin| ==> bin[k] < |records|
    ensures |s| == |bin|
  {
    seq(|bin|, k requires 0 <= k < |bin| => records[bin[k]])
  }

  function Flatten(bins: seq<seq<nat>>): seq<nat>
  {
    if bins == [] then [] else Flatten(bins[..|bins| - 1]) + bins[|bins| - 1]
  }

  /** The indexes below `n`, once each. */
  function Range(n: nat): (s: seq<nat>)
    ensures |s| == n && forall i :: 0 <= i < n ==> s[i] == i
  {
    seq(n, i => i)
  }

  predicate ExactlyOnce(bins: seq<seq<nat>>, n: nat)
  {
    multiset(Flatten(bins)) == multiset(Range(n))
  }

  method BuildPlan(records: seq<Record>) returns (ok: bool, bins: seq<seq<nat>>)
    ensures ok <==> Plannable(records)
    ensures ok ==> bins == PlanOf(records).bins
  {
    hide EncodedRecordSize, PlanOf;
    bins := [];
    var used: seq<nat> := [];
    var ids: set<u32> := {};
    var index := 0;
    PlanNone(records);
    while index < |records|
      invariant 0 <= index <= |records|
      invariant AllEligible(records[..index]) && DistinctIds(records[..index])
      invariant ids == set k | 0 <= k < index :: records[k].id
      invariant Plan(bins, used) == PlanOf(records[..index])
    {
      var r := records[index];
      DistinctIdsSnoc(records, index, ids);
      if r.id == 0 || r.id in ids || r.bytes == [] || |r.bytes| > THRESHOLD {
        if r.id in ids {
          NotDistinct(records, index);
        }
        return false, [];
      }
      PlanStep(records, index);
      bins, used := FirstFitStep(bins, used, index, EncodedRecordSize(|r.bytes|));
      ids := ids + {r.id};
      index := index + 1;
    }
    assert records[..index] == records;
    ok := true;
  }

  /** The inner loop: the first bin with room, or a new bin. */
  method FirstFitStep(bins: seq<seq<nat>>, used: seq<nat>, index: nat, size: nat)
    returns (bins': seq<seq<nat>>, used': seq<nat>)
    requires Sound(Plan(bins, used)) && size <= BLOCK_SIZE - HEADER_SIZE
    ensures Plan(bins', used') == Place(Plan(bins, used), index, size)
  {
    var b := 0;
    while b < |bins| && size > BLOCK_SIZE - used[b]
      invariant 0 <= b <= |bins|
      invariant FirstFit(used, size, 0) == FirstFit(used, size, b)
    {
      b := b + 1;
    }
    if b < |bins| {
      bins', used' := bins[b := bins[b] + [index]], used[b := used[b] + size];
    } else {
      bins', used' := bins + [[index]], used + [HEADER_SIZE + size];
    }
  }

  lemma PlanNone(records: seq<Record>)
    ensures PlanOf(records[..0]) == Plan([], []) && AllEligible(records[..0]) && DistinctIds(records[..0])
  {}

  lemma PlanStep(records: seq<Record>, n: nat)
    requires n < |records| && Eligible(records[n]) && AllEligible(records[..n])
    ensures AllEligible(records[..n + 1]) && SizeOf(records[n]) <= BLOCK_SIZE - HEADER_SIZE
    ensures PlanOf(records[..n + 1]) == Place(PlanOf(records[..n]), n, SizeOf(records[n]))
  {
    hide EncodedRecordSize;
    EligibleSize(records[n]);
    assert records[..n + 1][..n] == records[..n];
  }

  /** A bin is opened only for a record. */
  lemma {:induction false} BinsNotEmpty(records: seq<Record>, b: nat)
    requires AllEligible(records) && b < |PlanOf(records).bins|
    ensures PlanOf(records).bins[b] != []
    decreases |records|
  {
    hide FirstFit, SizeOf, Eligible;
    if records != [] {
      var last := |records| - 1;
      PlanStepAt(records);
      if b < |PlanOf(records[..last]).bins| {
        BinsNotEmpty(records[..last], b);
      }
    }
  }

  /** Placing the last record: either the first bin with room grows, or a new bin opens. */
  lemma PlanStepAt(records: seq<Record>)
    requires AllEligible(records) && records != []
    ensures SizeOf(records[|records| - 1]) <= BLOCK_SIZE - HEADER_SIZE
    ensures
      var last := |records| - 1;
      PlanOf(records) == Place(PlanOf(records[..last]), last, SizeOf(records[last]))
  {}

  // ----- Every record is placed exactly once -----

  lemma {:induction false} FlattenAppendTo(bins: seq<seq<nat>>, b: nat, index: nat)
    requires b < |bins|
    ensures multiset(Flatten(bins[b := bins[b] + [index]])) == multiset(Flatten(bins)) + multiset{index}
    decreases |bins|
  {
    var last := |bins| - 1;
    var after := bins[b := bins[b] + [index]];
    if b == last {
      assert after[..last] == bins[..last];
      assert Flatten(after) == Flatten(bins[..last]) + (bins[last] + [index]);
    } else {
      FlattenAppendTo(bins[..last], b, index);
      assert after[..last] == bins[..last][b := bins[..last][b] + [index]];
    }
  }

  lemma FlattenNewBin(bins: seq<seq<nat>>, index: nat)
    ensures Flatten(bins + [[index]]) == Flatten(bins) + [index]
  {}

  lemma RangeSnoc(n: nat)
    ensures Range(n + 1) == Range(n) + [n]
  {}

  /** Every record index is in exactly one bin, at one position. */
  lemma {:induction false} PlacesEachOnce(records: seq<Record>)
    requires AllEligible(records)
    ensures ExactlyOnce(PlanOf(records).bins, |records|)
  {
    hide EncodedRecordSize;
    if records != [] {
      var last := |records| - 1;
      PlacesEachOnce(records[..last]);
      EligibleSize(records[last]);
      var p := PlanOf(records[..last]);
      var b := FirstFit(p.used, SizeOf(records[last]), 0);
      RangeSnoc(last);
      if b < |p.used| {
        FlattenAppendTo(p.bins, b, last);
      } else {
        FlattenNewBin(p.bins, last);
      }
    }
  }

  lemma {:induction false} FlattenContains(bins: seq<seq<nat>>, b: nat, k: nat)
    requires b < |bins| && k < |bins[b]|
    ensures bins[b][k] in Flatten(bins)
    decreases |bins|
  {
    var last := |bins| - 1;
    if b < last {
      FlattenContains(bins[..last], b, k);
    }
  }

  lemma InMultiset(s: seq<nat>, x: nat)
    ensures x in s <==> x in multiset(s)
  {}

  /** Indexes in bins are record indexes. */
  lemma IndexInRange(bins: seq<seq<nat>>, n: nat, b: nat, k: nat)
    requires ExactlyOnce(bins, n) && b < |bins| && k < |bins[b]|
    ensures bins[b][k] < n
  {
    FlattenContains(bins, b, k);
    InMultiset(Flatten(bins), bins[b][k]);
    InMultiset(Range(n), bins[b][k]);
  }

  lemma {:induction false} FlattenLocates(bins: seq<seq<nat>>, x: nat) returns (b: nat, k: nat)
    requires x in Flatten(bins)
    ensures b < |bins| && k < |bins[b]| && bins[b][k] == x
    decreases |bins|
  {
    var last := |bins| - 1;
    if x in bins[last] {
      b := last;
      k :| 0 <= k < |bins[last]| && bins[last][k] == x;
    } else {
      b, k := FlattenLocates(bins[..last], x);
    }
  }

  /** Every record index has a place. */
  lemma Locate(bins: seq<seq<nat>>, n: nat, index: nat) returns (b: nat, k: nat)
    requires ExactlyOnce(bins, n) && index < n
    ensures b < |bins| && k < |bins[b]| && bins[b][k] == index
  {
    assert Range(n)[index] == index;
    InMultiset(Range(n), index);
    InMultiset(Flatten(bins), index);
    b, k := FlattenLocates(bins, index);
  }

  // ----- Every bin can be encoded -----

  predicate BinFits(records: seq<Record>, bin: seq<nat>, used: nat)
  {
    && bin != []
    && (forall k :: 0 <= k < |bin| ==> bin[k] < |records|)
    && (forall j, k :: 0 <= j < k < |bin| ==> bin[j] < bin[k])
    && used == HEADER_SIZE + PayloadSize(BinRecords(records, bin)) <= BLOCK_SIZE
  }

  lemma BinSnoc(records: seq<Record>, bin: seq<nat>, index: nat)
    requires index < |records| && forall k :: 0 <= k < |bin| ==> bin[k] < |records|
    ensures PayloadSize(BinRecords(records, bin + [index])) == PayloadSize(BinRecords(records, bin)) + SizeOf(records[index])
  {
    hide EncodedRecordSize, Payload, PayloadSize;
    var more := BinRecords(records, bin + [index]);
    assert more[..|bin|] == BinRecords(records, bin) && more[..|bin| + 1] == more;
    Snoc(more, |bin|);
  }

  lemma BinExtends(records: seq<Record>, last: nat, bin: seq<nat>, used: nat)
    requires |records| == last + 1 && BinFits(records[..last], bin, used)
    ensures BinFits(records, bin, used)
    ensures used + SizeOf(records[last]) <= BLOCK_SIZE ==> BinFits(records, bin + [last], used + SizeOf(records[last]))
  {
    hide EncodedRecordSize, Payload, PayloadSize;
    assert BinRecords(records, bin) == BinRecords(records[..last], bin);
    BinSnoc(records, bin, last);
  }

  lemma BinStarts(records: seq<Record>, last: nat)
    requires |records| == last + 1 && HEADER_SIZE + SizeOf(records[last]) <= BLOCK_SIZE
    ensures BinFits(records, [last], HEADER_SIZE + SizeOf(records[last]))
  {}

  lemma {:induction false} BinsFit(records: seq<Record>)
    requires AllEligible(records)
    ensures
      var p := PlanOf(records);
      forall b :: 0 <= b < |p.bins| ==> BinFits(records, p.bins[b], p.used[b])
  {
    hide EncodedRecordSize, BinFits;
    if records != [] {
      var last := |records| - 1;
      BinsFit(records[..last]);
      EligibleSize(records[last]);
      var p, q := PlanOf(records[..last]), PlanOf(records);
      PlanStepAt(records);
      hide PlanOf;
      forall b | 0 <= b < |q.bins| ensures BinFits(records, q.bins[b], q.used[b]) {
        if b < |p.bins| {
          assert BinFits(records[..last], p.bins[b], p.used[b]);
          BinExtends(records, last, p.bins[b], p.used[b]);
        } else {
          BinStarts(records, last);
        }
      }
    }
  }

  /** Every bin of an accepted plan is accepted by `PackedBlock.Encode`, with any nonzero generation. */
  lemma BinsEncodable(records: seq<Record>, generation: u64, b: nat)
    requires Plannable(records) && generation != 0 && b < |PlanOf(records).bins|
    ensures forall k :: 0 <= k < |PlanOf(records).bins[b]| ==> PlanOf(records).bins[b][k] < |records|
    ensures Encodable(generation, BinRecords(records, PlanOf(records).bins[b]))
  {
    hide PlanOf, PayloadSize;
    BinsFit(records);
    var p := PlanOf(records);
    var bin, chosen := p.bins[b], BinRecords(records, p.bins[b]);
    assert BinFits(records, bin, p.used[b]);
    forall j, k | 0 <= j < k < |chosen| ensures chosen[j].id != chosen[k].id {
      assert bin[j] < bin[k];
    }
  }

  // ----- Bins are dense -----

  /** Encoded bytes every bin but the last must exceed. */
  const DENSE: nat := BLOCK_SIZE - HEADER_SIZE - RECORD_HEADER_SIZE - THRESHOLD

  /** A new bin is opened only when every open bin is too full for a largest record. */
  lemma {:induction false} BinsDense(records: seq<Record>)
    requires AllEligible(records)
    ensures DENSE == 49056
    ensures
      var used := PlanOf(records).used;
      forall b :: 0 <= b < |used| - 1 ==> used[b] > HEADER_SIZE + DENSE
  {
    hide EncodedRecordSize;
    if records != [] {
      var last := |records| - 1;
      BinsDense(records[..last]);
      EligibleSize(records[last]);
      PlanStepAt(records);
      var p, q := PlanOf(records[..last]), PlanOf(records);
      hide PlanOf;
      var size := SizeOf(records[last]);
      var f := FirstFit(p.used, size, 0);
      forall b | 0 <= b < |q.used| - 1 ensures q.used[b] > HEADER_SIZE + DENSE {
        if f == |p.used| {
          assert size > BLOCK_SIZE - p.used[b];
        } else {
          assert p.used[b] > HEADER_SIZE + DENSE;
        }
      }
    }
  }

  function Sum(s: seq<nat>): nat
  {
    if s == [] then 0 else Sum(s[..|s| - 1]) + s[|s| - 1]
  }

  lemma {:induction false} SumUpdate(s: seq<nat>, b: nat, x: nat)
    requires b < |s|
    ensures Sum(s[b := s[b] + x]) == Sum(s) + x
    decreases |s|
  {
    var last := |s| - 1;
    var t := s[b := s[b] + x];
    if b == last {
      assert t[..last] == s[..last];
    } else {
      SumUpdate(s[..last], b, x);
      assert t[..last] == s[..last][b := s[..last][b] + x];
    }
  }

  lemma OneMoreHeader(count: nat)
    ensures (count + 1) * HEADER_SIZE == count * HEADER_SIZE + HEADER_SIZE
  {}

  /** Placing a record adds its size, and a header when it opens a bin. */
  lemma PlaceSum(p: Plan, index: nat, size: nat)
    requires Sound(p) && size <= BLOCK_SIZE - HEADER_SIZE
    ensures
      var q := Place(p, index, size);
      Sum(q.used) == Sum(p.used) + size + if |q.used| > |p.used| then HEADER_SIZE else 0
    ensures |p.used| <= |Place(p, index, size).used| <= |p.used| + 1
  {
    var b := FirstFit(p.used, size, 0);
    if b < |p.used| {
      SumUpdate(p.used, b, size);
    } else {
      assert (p.used + [HEADER_SIZE + size])[..|p.used|] == p.used;
    }
  }

  lemma {:induction false} SumOfUsed(records: seq<Record>)
    requires AllEligible(records)
    ensures
      var used := PlanOf(records).used;
      Sum(used) == |used| * HEADER_SIZE + PayloadSize(records)
  {
    hide EncodedRecordSize, Payload, Place;
    if records != [] {
      var last := |records| - 1;
      SumOfUsed(records[..last]);
      PlanStepAt(records);
      var p := PlanOf(records[..last]);
      hide PlanOf;
      OneMoreHeader(|p.used|);
      PlaceSum(p, last, SizeOf(records[last]));
    }
  }

  lemma {:induction false} SumAbove(s: seq<nat>, low: nat)
    requires forall b :: 0 <= b < |s| ==> s[b] >= low
    ensures Sum(s) >= |s| * low
  {
    if s != [] {
      SumAbove(s[..|s| - 1], low);
    }
  }

  /** The number of bins is bounded by the total encoded size. */
  lemma BinCount(records: seq<Record>)
    requires AllEligible(records) && records != []
    ensures (|PlanOf(records).bins| - 1) * DENSE < PayloadSize(records)
  {
    hide EncodedRecordSize, PlanOf, PayloadSize;
    BinsDense(records);
    BinsFit(records);
    SumOfUsed(records);
    var p := PlanOf(records);
    NonEmptyPlan(records);
    var rest := |p.used| - 1;
    SumAbove(p.used[..rest], HEADER_SIZE + DENSE + 1);
    assert BinFits(records, p.bins[rest], p.used[rest]);
    UsedAboveHeader(records, p.bins[rest], p.used[rest]);
    assert Sum(p.used) == Sum(p.used[..rest]) + p.used[rest];
    assert Sum(p.used) >= rest * (HEADER_SIZE + DENSE + 1) + HEADER_SIZE + 1;
  }

  lemma NonEmptyPlan(records: seq<Record>)
    requires AllEligible(records) && records != []
    ensures PlanOf(records).bins != []
  {}

  lemma UsedAboveHeader(records: seq<Record>, bin: seq<nat>, used: nat)
    requires BinFits(records, bin, used)
    ensures used > HEADER_SIZE
  {}

  lemma PositiveSize(n: nat)
    ensures EncodedRecordSize(n) > 0
  {}

  // ----- Repacking never grows -----

  function Concat(groups: seq<seq<Record>>): seq<Record>
  {
    if groups == [] then [] else Concat(groups[..|groups| - 1]) + groups[|groups| - 1]
  }

  /** Records that came from one packed block fit in one packed block. */
  predicate FitsOneBlock(group: seq<Record>)
  {
    HEADER_SIZE + PayloadSize(group) <= BLOCK_SIZE
  }

  /** The last bin holds nothing but what the current group has placed so far. */
  predicate FreshLast(p: Plan, placed: nat)
  {
    p.used != [] && p.used[|p.used| - 1] <= HEADER_SIZE + placed
  }

  predicate AtMostOneNewBin(p: Plan, q: Plan, placed: nat)
  {
    |q.used| == |p.used| || (|q.used| == |p.used| + 1 && FreshLast(q, placed))
  }

  lemma OneMore(p: Plan, q: Plan, index: nat, size: nat, placed: nat)
    requires Sound(p) && Sound(q) && AtMostOneNewBin(p, q, placed)
    requires size <= BLOCK_SIZE - HEADER_SIZE && HEADER_SIZE + placed + size <= BLOCK_SIZE
    ensures AtMostOneNewBin(p, Place(q, index, size), placed + size)
  {}

  lemma {:induction false} GroupOpensOneBin(before: seq<Record>, group: seq<Record>, n: nat)
    requires AllEligible(before + group) && FitsOneBlock(group) && n <= |group|
    ensures AllEligible(before) && AllEligible(before + group[..n]) && PayloadSize(group[..n]) <= PayloadSize(group)
    ensures
      AtMostOneNewBin(PlanOf(before), PlanOf(before + group[..n]), PayloadSize(group[..n]))
    decreases n
  {
    hide EncodedRecordSize, Payload, PayloadSize, PlanOf, AtMostOneNewBin;
    PrefixEligible(before, group, n);
    PayloadSizeMonotone(group, n);
    if n == 0 {
      assert before + group[..0] == before;
      SamePlan(PlanOf(before), PayloadSize(group[..0]));
    } else {
      GroupOpensOneBin(before, group, n - 1);
      Snoc(group, n - 1);
      var so := before + group[..n];
      assert so[..|so| - 1] == before + group[..n - 1] && so[|so| - 1] == group[n - 1];
      PlanStepAt(so);
      OneMore(PlanOf(before), PlanOf(before + group[..n - 1]), |so| - 1, SizeOf(group[n - 1]), PayloadSize(group[..n - 1]));
    }
  }

  lemma SamePlan(p: Plan, placed: nat)
    ensures AtMostOneNewBin(p, p, placed)
  {}

  lemma PrefixEligible(before: seq<Record>, group: seq<Record>, n: nat)
    requires AllEligible(before + group) && n <= |group|
    ensures AllEligible(before) && AllEligible(before + group[..n])
  {
    assert forall k :: 0 <= k < |before| ==> before[k] == (before + group)[k];
    assert forall k :: 0 <= k < |before + group[..n]| ==> (before + group[..n])[k] == (before + group)[k];
  }

  /** First fit over the live records of some packed blocks, block by block, uses no more bins than there were blocks. */
  lemma {:induction false} RepackingNeverGrows(groups: seq<seq<Record>>)
    requires AllEligible(Concat(groups)) && forall g :: 0 <= g < |groups| ==> FitsOneBlock(groups[g])
    ensures |PlanOf(Concat(groups)).bins| <= |groups|
  {
    hide EncodedRecordSize, PlanOf, PayloadSize;
    if groups != [] {
      var last := |groups| - 1;
      var before, group := Concat(groups[..last]), groups[last];
      assert group[..|group|] == group;
      GroupOpensOneBin(before, group, |group|);
      RepackingNeverGrows(groups[..last]);
    } else {
      PlanNone(Concat(groups));
    }
  }
}
