/** The bus's index of device ranges, keyed by last address. */
module MemoryBus {
  datatype Option<T> = None | Some(value: T)

  datatype Range = Range(device: nat, start: nat, last: nat) {
    predicate Contains(a: nat) {
      start <= a <= last
    }

    /** The check the bus makes: whether an end of the other range lies in this one. */
    predicate HoldsEndOf(other: Range) {
      Contains(other.start) || Contains(other.last)
    }

    predicate Meets(other: Range) {
      start <= other.last && other.start <= last
    }

    predicate StrictlyEncloses(other: Range) {
      start < other.start && other.last < last
    }
  }

  type Index = map<nat, Range>

  /** Ranges are filed under their last address and do not meet. */
  predicate Sound(m: Index) {
    && (forall k :: k in m ==> m[k].last == k && m[k].start <= k)
    && (forall j, k :: j in m && k in m && j != k ==> !m[j].Meets(m[k]))
  }

  predicate IsLowerBound(m: Index, a: nat, k: nat) {
    k in m && a <= k && forall j :: j in m && a <= j ==> k <= j
  }

  /** What a lower-bound search for `a` returns. */
  predicate LowerBoundIs(m: Index, a: nat, r: Option<nat>) {
    match r
    case Some(k) => IsLowerBound(m, a, k)
    case None => forall j :: j in m ==> j < a
  }

  class MemoryDataBus {
    var rangesByAddr: Index
    var rangesByDevice: map<nat, seq<Range>>

    constructor ()
      ensures rangesByAddr == map[] && rangesByDevice == map[]
    {
      rangesByAddr, rangesByDevice := map[], map[];
    }

    /** The smallest key not below `a`. */
    method LowerBound(a: nat) returns (r: Option<nat>)
      ensures LowerBoundIs(rangesByAddr, a, r)
    {
      r := None;
      var rest := rangesByAddr.Keys;
      while rest != {}
        invariant rest <= rangesByAddr.Keys
        invariant r.Some? ==> r.value in rangesByAddr && a <= r.value
        invariant forall j :: j in rangesByAddr && j !in rest && a <= j ==> r.Some? && r.value <= j
        decreases |rest|
      {
        var k :| k in rest;
        rest := rest - {k};
        if a <= k && (r.None? || k < r.value) {
          r := Some(k);
        }
      }
    }

    method FindRange(a: nat) returns (r: Option<Range>)
      ensures exists bound :: LowerBoundIs(rangesByAddr, a, bound) && r == Found(rangesByAddr, a, bound)
      ensures Sound(rangesByAddr) ==>
                match r
                case Some(range) => range.last in rangesByAddr && rangesByAddr[range.last] == range && range.Contains(a)
                case None => forall k :: k in rangesByAddr ==> !rangesByAddr[k].Contains(a)
    {
      var bound := LowerBound(a);
      if Sound(rangesByAddr) {
        LookupExact(rangesByAddr, a, bound, Range(0, 0, 0));
      }
      if bound.None? {
        return None;
      }
      var range := rangesByAddr[bound.value];
      return if range.Contains(a) then Some(range) else None;
    }

    method InsertDeviceToRange(device: nat, start: nat, last: nat) returns (ok: bool)
      modifies this
      ensures exists bound ::
                LowerBoundIs(old(rangesByAddr), start, bound)
                && ok == Accepts(old(rangesByAddr), Range(device, start, last), bound)
      ensures rangesByAddr == if ok then old(rangesByAddr)[last := Range(device, start, last)] else old(rangesByAddr)
      ensures rangesByDevice
              == if ok
                 then old(rangesByDevice)[device := Filed(old(rangesByDevice), device) + [Range(device, start, last)]]
                 else old(rangesByDevice)
    {
      var bound := LowerBound(start);
      var range := Range(device, start, last);
      if bound.Some? && rangesByAddr[bound.value].HoldsEndOf(range) {
        return false;
      }
      rangesByDevice := rangesByDevice[device := Filed(rangesByDevice, device) + [range]];
      rangesByAddr := rangesByAddr[last := range];
      return true;
    }
  }

  function Filed(m: map<nat, seq<Range>>, device: nat): seq<Range> {
    if device in m then m[device] else []
  }

  function Found(m: Index, a: nat, bound: Option<nat>): Option<Range>
    requires LowerBoundIs(m, a, bound)
  {
    if bound.Some? && m[bound.value].Contains(a) then Some(m[bound.value]) else None
  }

  predicate Accepts(m: Index, r: Range, bound: Option<nat>)
    requires LowerBoundIs(m, r.start, bound)
  {
    bound.None? || !m[bound.value].HoldsEndOf(r)
  }

  // ---------------------------------------------------------------- lookup

  /** In a sound index the lookup finds exactly the range a search through all of them would find. */
  lemma LookupExact(m: Index, a: nat, bound: Option<nat>, r: Range)
    requires Sound(m) && LowerBoundIs(m, a, bound)
    ensures Found(m, a, bound) == Some(r) <==> r.last in m && m[r.last] == r && r.Contains(a)
    ensures Found(m, a, bound) == None <==> forall k :: k in m ==> !m[k].Contains(a)
  {
    if bound.Some? && !m[bound.value].Contains(a) {
      forall k | k in m ensures !m[k].Contains(a) {
        if k != bound.value && a <= k {
          assert bound.value < k && m[bound.value].last < m[k].start by { assert !m[bound.value].Meets(m[k]); }
        }
      }
    }
  }

  // ---------------------------------------------------------------- insertion

  /** The request encloses the first range it meets, which the bus does not notice. */
  predicate EnclosesFirst(m: Index, r: Range, bound: Option<nat>)
    requires LowerBoundIs(m, r.start, bound)
  {
    bound.Some? && r.StrictlyEncloses(m[bound.value])
  }

  predicate Free(m: Index, r: Range) {
    forall k :: k in m ==> !m[k].Meets(r)
  }

  /** A request is accepted exactly when it meets no range or encloses the first one it meets. */
  lemma AcceptsIff(m: Index, r: Range, bound: Option<nat>)
    requires Sound(m) && r.start <= r.last && LowerBoundIs(m, r.start, bound)
    ensures Accepts(m, r, bound) <==> Free(m, r) || EnclosesFirst(m, r, bound)
  {
    if bound.Some? {
      var first := m[bound.value];
      if !first.Meets(r) {
        forall k | k in m ensures !m[k].Meets(r) {
          if k != bound.value && r.start <= k {
            assert !first.Meets(m[k]);
          }
        }
      }
    }
  }

  /** An accepted request leaves the index sound if and only if it did not enclose the first range it met. */
  lemma InsertSoundIff(m: Index, r: Range, bound: Option<nat>)
    requires Sound(m) && r.start <= r.last && LowerBoundIs(m, r.start, bound) && Accepts(m, r, bound)
    ensures Sound(m[r.last := r]) <==> !EnclosesFirst(m, r, bound)
  {
    var m' := m[r.last := r];
    AcceptsIff(m, r, bound);
    if EnclosesFirst(m, r, bound) {
      var k := bound.value;
      assert k in m' && r.last in m' && m'[k] == m[k] && m'[r.last] == r && m'[k].Meets(m'[r.last]);
    } else {
      forall j, k | j in m' && k in m' && j != k ensures !m'[j].Meets(m'[k]) {
        if j == r.last {
          assert k in m && !m[k].Meets(r);
        } else if k == r.last {
          assert j in m && !m[j].Meets(r);
        }
      }
    }
  }

  /** Once such a request is accepted, the lookup no longer finds it at its own start. */
  lemma EnclosingStartLost(m: Index, r: Range, bound: Option<nat>)
    requires Sound(m) && LowerBoundIs(m, r.start, bound) && EnclosesFirst(m, r, bound)
    ensures
      var m' := m[r.last := r];
      Accepts(m, r, bound) && LowerBoundIs(m', r.start, bound) && Found(m', r.start, bound) == None
  {
    assert m[r.last := r][bound.value] == m[bound.value];
  }

  /** Device 1 asks for 0 to 10 when device 0 has the one address 5. */
  lemma EnclosingAccepted()
    ensures
      var m, r := map[5 := Range(0, 5, 5)], Range(1, 0, 10);
      && Sound(m) && LowerBoundIs(m, 0, Some(5)) && Accepts(m, r, Some(5)) && !Sound(m[10 := r])
      && LowerBoundIs(m[10 := r], 0, Some(5)) && Found(m[10 := r], 0, Some(5)) == None
  {
    var m, r := map[5 := Range(0, 5, 5)], Range(1, 0, 10);
    assert m[5] == Range(0, 5, 5);
    InsertSoundIff(m, r, Some(5));
    EnclosingStartLost(m, r, Some(5));
  }

  // ---------------------------------------------------------------- any sequence of requests

  /** A run of requests from the empty bus: the index after each, `m[i + 1]` after request `i`. */
  ghost predicate Run(requests: seq<Range>, m: seq<Index>) {
    && |m| == |requests| + 1 && m[0] == map[]
    && forall i :: 0 <= i < |requests| ==> Stepped(m[i], requests[i], m[i + 1])
  }

  ghost predicate Stepped(m: Index, r: Range, m': Index) {
    exists bound :: LowerBoundIs(m, r.start, bound) && m' == if Accepts(m, r, bound) then m[r.last := r] else m
  }

  /** Non-empty, and not around a range that is already there. */
  predicate Proper(m: Index, r: Range) {
    r.start <= r.last && forall k :: k in m ==> !r.StrictlyEncloses(m[k])
  }

  lemma StepExact(m: Index, r: Range, m': Index)
    requires Sound(m) && Proper(m, r) && Stepped(m, r, m')
    ensures Sound(m') && m' == if Free(m, r) then m[r.last := r] else m
  {
    var bound :| LowerBoundIs(m, r.start, bound) && m' == if Accepts(m, r, bound) then m[r.last := r] else m;
    AcceptsIff(m, r, bound);
    if Accepts(m, r, bound) {
      InsertSoundIff(m, r, bound);
    }
  }

  /**
   * Through every run of proper requests the ranges stay disjoint, and each request is granted exactly when
   * it meets none.
   */
  lemma {:induction false} RunSound(requests: seq<Range>, m: seq<Index>, n: nat)
    requires Run(requests, m) && n <= |requests|
    requires forall i :: 0 <= i < n ==> Proper(m[i], requests[i])
    ensures Sound(m[n])
    ensures forall i :: 0 <= i < n ==>
              m[i + 1] == if Free(m[i], requests[i]) then m[i][requests[i].last := requests[i]] else m[i]
  {
    if n > 0 {
      RunSound(requests, m, n - 1);
      StepExact(m[n - 1], requests[n - 1], m[n]);
    }
  }
}
