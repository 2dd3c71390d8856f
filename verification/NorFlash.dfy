/**
 NOR flash: an erase sets its range to ones, a write can only clear bits, and each call makes
 arbitrary progress until the operation is complete.
 */
module NorFlash {
  /** What one call into the device leaves behind and whether it reports completion. */
  datatype Outcome = Outcome(flash: seq<bv8>, done: bool)

  ghost predicate SameAround(f: seq<bv8>, f': seq<bv8>, at: nat, n: nat) {
    |f| == |f'| && forall i | 0 <= i < |f| && !(at <= i < at + n) :: f'[i] == f[i]
  }

  ghost predicate Blank(f: seq<bv8>, at: nat, n: nat)
    requires at + n <= |f|
  {
    forall i | at <= i < at + n :: f[i] == 0xFF
  }

  /** `big` has every bit of `small`. */
  predicate HasBits(big: bv8, small: bv8) {
    big & small == small
  }

  /** One call of an erase: any garbage inside the region until it completes, then all ones. */
  ghost predicate EraseCall(f: seq<bv8>, at: nat, n: nat, o: Outcome)
    requires at + n <= |f|
  {
    SameAround(f, o.flash, at, n) && (o.done ==> Blank(o.flash, at, n))
  }

  /** One call of a write: bits may clear where the data has zeros; completion cleared them all. */
  ghost predicate WriteCall(f: seq<bv8>, at: nat, data: seq<bv8>, o: Outcome)
    requires at + |data| <= |f|
  {
    && SameAround(f, o.flash, at, |data|)
    && (forall i | at <= i < at + |data| ::
          HasBits(f[i], o.flash[i]) && HasBits(o.flash[i], f[i] & data[i - at]))
    && (o.done ==> forall i | at <= i < at + |data| :: o.flash[i] == f[i] & data[i - at])
  }

  lemma OnesHaveAllBits(b: bv8)
    ensures HasBits(0xFF, b)
  {
  }

  // ---------- a device ----------

  function Loosened(data: seq<bv8>, standing: seq<bv8>): (r: seq<bv8>)
    requires |standing| == |data|
    ensures |r| == |data| && forall i | 0 <= i < |data| :: HasBits(r[i], data[i])
  {
    seq(|data|, i requires 0 <= i < |data| => LoosenedByte(data[i], standing[i]))
  }

  function LoosenedByte(d: bv8, standing: bv8): (r: bv8)
    ensures HasBits(r, d)
  {
    d | standing
  }

  /** Clearing by a mask that keeps the data's bits is one call of a write. */
  lemma MaskedWrite(f: seq<bv8>, at: nat, data: seq<bv8>, mask: seq<bv8>, o: Outcome)
    requires at + |data| <= |f| && |mask| == |data|
    requires SameAround(f, o.flash, at, |data|)
    requires forall i | at <= i < at + |data| :: o.flash[i] == f[i] & mask[i - at]
    requires forall i | 0 <= i < |data| :: HasBits(mask[i], data[i])
    requires o.done ==> mask == data
    ensures WriteCall(f, at, data, o)
  {
    forall i | at <= i < at + |data|
      ensures HasBits(f[i], o.flash[i]) && HasBits(o.flash[i], f[i] & data[i - at])
    {
      PartialMask(f[i], data[i - at], mask[i - at]);
    }
  }

  lemma PartialMask(f: bv8, d: bv8, mask: bv8)
    requires HasBits(mask, d)
    ensures HasBits(f, f & mask)
    ensures HasBits(f & mask, f & d)
  {
  }

  /** A NOR flash whose erase and write make arbitrary progress per call. */
  class NorDevice {
    const flash: array<bv8>
    /** Unfinished calls the current operation still takes. */
    var work: nat

    constructor (content: seq<bv8>)
      ensures flash[..] == content && fresh(flash)
    {
      flash := new bv8[|content|](i requires 0 <= i < |content| => content[i]);
      work := *;
    }

    method AnyBytes(n: nat) returns (b: seq<bv8>)
      ensures |b| == n
    {
      b := [];
      while |b| < n
        invariant |b| <= n
      {
        var any: bv8 := *;
        b := b + [any];
      }
    }

    method Fill(at: nat, content: seq<bv8>)
      requires at + |content| <= flash.Length
      modifies flash
      ensures SameAround(old(flash[..]), flash[..], at, |content|)
      ensures forall i | at <= i < at + |content| :: flash[i] == content[i - at]
    {
      forall i | at <= i < at + |content| {
        flash[i] := content[i - at];
      }
    }

    /** Programming: bits that are zero in the mask are cleared, no bit is set. */
    method Clear(at: nat, mask: seq<bv8>)
      requires at + |mask| <= flash.Length
      modifies flash
      ensures SameAround(old(flash[..]), flash[..], at, |mask|)
      ensures forall i | at <= i < at + |mask| :: flash[i] == old(flash[..])[i] & mask[i - at]
    {
      forall i | at <= i < at + |mask| {
        flash[i] := flash[i] & mask[i - at];
      }
    }

    method Erase(at: nat, n: nat) returns (done: bool)
      requires at + n <= flash.Length
      modifies `work, flash
      ensures EraseCall(old(flash[..]), at, n, Outcome(flash[..], done))
      ensures done <==> old(work) == 0
      ensures !done ==> work < old(work)
    {
      done := work == 0;
      var content := AnyBytes(n);
      if done {
        content := seq(n, _ => 0xFF);
        work := *;
      } else {
        work := work - 1;
      }
      Fill(at, content);
    }

    method Write(at: nat, data: seq<bv8>) returns (done: bool)
      requires at + |data| <= flash.Length
      modifies `work, flash
      ensures WriteCall(old(flash[..]), at, data, Outcome(flash[..], done))
      ensures done <==> old(work) == 0
      ensures !done ==> work < old(work)
    {
      done := work == 0;
      var mask := data;
      if done {
        work := *;
      } else {
        // Some of the bits that are to be cleared may still be standing.
        var standing := AnyBytes(|data|);
        mask := Loosened(data, standing);
        work := work - 1;
      }
      Clear(at, mask);
      MaskedWrite(old(flash[..]), at, data, mask, Outcome(flash[..], done));
    }
  }

  // ---------- a write over several calls ----------

  /** b has lost only bits, and none that the data keeps. */
  ghost predicate Between(before: bv8, b: bv8, least: bv8) {
    HasBits(before, b) && HasBits(b, least)
  }

  lemma StillBetween(before: bv8, b: bv8, b': bv8, d: bv8)
    requires Between(before, b, before & d)
    requires HasBits(b, b') && HasBits(b', b & d)
    ensures Between(before, b', before & d)
    ensures b' == b & d ==> b' == before & d
  {
  }

  ghost predicate Partial(before: seq<bv8>, f: seq<bv8>, at: nat, data: seq<bv8>) {
    && at + |data| <= |before| && SameAround(before, f, at, |data|)
    && forall i | 0 <= i < |data| :: Between(before[at + i], f[at + i], before[at + i] & data[i])
  }

  ghost predicate Cleared(before: seq<bv8>, f: seq<bv8>, at: nat, data: seq<bv8>) {
    && at + |data| <= |before| && SameAround(before, f, at, |data|)
    && forall i | at <= i < at + |data| :: f[i] == before[i] & data[i - at]
  }

  lemma PartialStart(f: seq<bv8>, at: nat, data: seq<bv8>)
    requires at + |data| <= |f|
    ensures Partial(f, f, at, data)
  {
  }

  lemma PartialAt(before: seq<bv8>, f: seq<bv8>, at: nat, data: seq<bv8>, i: nat)
    requires Partial(before, f, at, data) && i < |data|
    ensures Between(before[at + i], f[at + i], before[at + i] & data[i])
  {
  }

  lemma WriteCallAt(f: seq<bv8>, at: nat, data: seq<bv8>, o: Outcome, i: nat)
    requires at + |data| <= |f| && WriteCall(f, at, data, o) && i < |data|
    ensures HasBits(f[at + i], o.flash[at + i]) && HasBits(o.flash[at + i], f[at + i] & data[i])
    ensures o.done ==> o.flash[at + i] == f[at + i] & data[i]
  {
    var k := at + i;
    assert k - at == i;
    assert HasBits(o.flash[k], f[k] & data[k - at]);
  }

  lemma PartialStep(before: seq<bv8>, f: seq<bv8>, at: nat, data: seq<bv8>, o: Outcome)
    requires Partial(before, f, at, data) && WriteCall(f, at, data, o)
    ensures Partial(before, o.flash, at, data)
    ensures o.done ==> Cleared(before, o.flash, at, data)
  {
    forall i | 0 <= i < |data|
      ensures Between(before[at + i], o.flash[at + i], before[at + i] & data[i])
      ensures o.done ==> o.flash[at + i] == before[at + i] & data[i]
    {
      PartialAt(before, f, at, data, i);
      WriteCallAt(f, at, data, o, i);
      StillBetween(before[at + i], f[at + i], o.flash[at + i], data[i]);
    }
    if o.done {
      forall i | at <= i < at + |data| ensures o.flash[i] == before[i] & data[i - at] {
        assert o.flash[at + (i - at)] == before[at + (i - at)] & data[i - at];
      }
    }
  }
}
