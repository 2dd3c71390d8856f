/**
 lib-dmxnode/include/dmxslotinfo.h: slot descriptions as text. ToString lists the selected slots,
 FromString fills the slots from the front.
 */
module SlotInfo {
  import opened Numbers
  import opened Options
  import opened Digits
  import opened PrintfModel
  import opened FormatSteps

  /** dmxnode::SlotInfo. */
  datatype Slot = Slot(kind: nat, category: nat)

  ghost predicate InRange(s: Slot) {
    s.kind < 0x100 && s.category < 0x1_0000
  }

  ghost predicate AllInRange(es: seq<Slot>) {
    forall k | 0 <= k < |es| :: InRange(es[k])
  }

  /** What the constructor puts in every slot: ST_PRIMARY, SD_UNDEFINED. */
  const UNDEFINED := Slot(0x00, 0xFFFF)
  /** Characters of an entry and its separator. */
  const ENTRY_SIZE := 8

  // ---------- the text ----------

  /** "TT:CCCC". */
  function Entry(e: Slot): (s: string)
    ensures |s| == 7
  {
    [Digit(e.kind / 0x10 % 0x10, true), Digit(e.kind % 0x10, true), ':',
     Digit(e.category / 0x1000 % 0x10, true), Digit(e.category / 0x100 % 0x10, true),
     Digit(e.category / 0x10 % 0x10, true), Digit(e.category % 0x10, true)]
  }

  /** The slots whose bits are set, lowest first. */
  function Selected(slots: seq<Slot>, mask: nat): (r: seq<Slot>)
    ensures |r| <= |slots|
  {
    if slots == [] then [] else (if mask % 2 == 1 then [slots[0]] else []) + Selected(slots[1..], mask / 2)
  }

  /** Every entry with its comma. */
  function Listed(entries: seq<Slot>): (s: string)
    ensures |s| == ENTRY_SIZE * |entries|
  {
    if entries == [] then [] else Entry(entries[0]) + [','] + Listed(entries[1..])
  }

  /** The text of ToString: no comma behind the last entry. */
  function Joined(entries: seq<Slot>): string {
    if entries == [] then "" else Listed(entries)[..ENTRY_SIZE * |entries| - 1]
  }

  // ---------- reading ----------

  /**
   A digit loop of Parse, of at most `limit` digits; the type ends at ':', the category at ',' or NUL.
   Some((digits read, value, where it stopped)), or None for a character that is no digit.
   */
  function HexDigits(s: string, b: nat, i: nat, tmp: nat, limit: nat, category: bool): (r: Option<(nat, nat, nat)>)
    ensures r.Some? ==> r.value.2 >= b
    decreases |s| - b
  {
    var c := CharAt(s, b);
    var stop := if category then c == ',' || c == NUL else c == ':';
    if i >= limit || stop then Some((i, tmp, b))
    else if !IsHex(c) then None
    else HexDigits(s, b + 1, i + 1, (tmp * 0x10 + DigitValue(c)) % 0x1_0000, limit, category)
  }

  /** Parse from position b: the slot and where the next entry starts, if there is a separator. */
  function ParseEntry(s: string, b: nat): (r: Option<(Slot, Option<nat>)>)
    ensures r.Some? && r.value.1.Some? ==> r.value.1.value > b
  {
    match HexDigits(s, b, 0, 0, 2, false)
    case None => None
    case Some((_, kind, b1)) =>
      match HexDigits(s, b1 + 1, 0, 0, 4, true)
      case None => None
      case Some((n, category, b2)) =>
        var c := CharAt(s, b2);
        if n != 4 || (c != ',' && c != ' ' && c != NUL) then None
        else Some((Slot(kind % 0x100, category), if c == NUL then None else Some(b2 + 1)))
  }

  /** Parse on one text, as a function of the position. */
  function Parser(s: string): nat -> Option<(Slot, Option<nat>)> {
    b => ParseEntry(s, b)
  }

  /** The slots the loop of FromString reads from position b on, at most n. */
  function ReadWith(parse: nat -> Option<(Slot, Option<nat>)>, b: nat, n: nat): (r: seq<Slot>)
    ensures |r| <= n
    decreases n
  {
    if n == 0 then []
    else
      match parse(b)
      case None => []
      case Some((e, next)) => [e] + (if next == None then [] else ReadWith(parse, next.value, n - 1))
  }

  function Read(s: string, b: nat, n: nat): (r: seq<Slot>)
    ensures |r| <= n
  {
    ReadWith(Parser(s), b, n)
  }

  // ---------- where ToString writes ----------

  /** The positions one turn of its loop writes, from p on. */
  function EntryWrites(p: int): (w: seq<int>)
    ensures |w| == ENTRY_SIZE && forall k | 0 <= k < ENTRY_SIZE :: w[k] == p + k
  {
    [p, p + 1, p + 2, p + 3, p + 4, p + 5, p + 6, p + 7]
  }

  /** The positions ToString writes with `size` slots to go and its pointer at p; the NUL lands on the last comma. */
  function LoopWrites(mask: nat, size: nat, p: int): seq<int>
    decreases size
  {
    if size == 0 then [p - 1]
    else if mask % 2 == 1 then EntryWrites(p) + LoopWrites(mask / 2, size - 1, p + ENTRY_SIZE)
    else LoopWrites(mask / 2, size - 1, p)
  }

  /** All positions of its buffer that ToString writes. */
  function Writes(mask: nat, size: nat): seq<int> {
    if mask == 0 then [0] else LoopWrites(mask, size, 0)
  }

  ghost predicate WritesInside(mask: nat, size: nat, length: nat) {
    forall k | 0 <= k < |Writes(mask, size)| :: 0 <= Writes(mask, size)[k] < length
  }

  class DmxSlotInfo {
    const slots: array<Slot>
    /** Characters per slot in the buffer of ToString; the code allocates 7. */
    const charsPerSlot: nat
    var text: array?<char>

    constructor (size: nat, charsPerSlot: nat)
      requires size > 0
      ensures fresh(slots) && slots.Length == size && this.charsPerSlot == charsPerSlot && text == null
      ensures forall i | 0 <= i < size :: slots[i] == Slot(0x00, 0xFFFF)
    {
      this.charsPerSlot := charsPerSlot;
      slots := new Slot[size](_ => UNDEFINED);
      text := null;
    }

    method ReadHexDigits(s: string, from: nat, limit: nat, category: bool) returns (ok: bool, i: nat, tmp: nat, b: nat)
      ensures HexDigits(s, from, 0, 0, limit, category) == if ok then Some((i, tmp, b)) else None
    {
      i, tmp, b := 0, 0, from;
      while i < limit && !(if category then CharAt(s, b) == ',' || CharAt(s, b) == NUL else CharAt(s, b) == ':')
        invariant HexDigits(s, from, 0, 0, limit, category) == HexDigits(s, b, i, tmp, limit, category)
        decreases limit - i
      {
        if !IsHex(CharAt(s, b)) {
          return false, i, tmp, b;
        }
        tmp := (tmp * 0x10 + DigitValue(CharAt(s, b))) % 0x1_0000;
        b := b + 1;
        i := i + 1;
      }
      ok := true;
    }

    /** `next` is -1 for the null pointer. */
    method ParseSlot(s: string, from: nat) returns (valid: bool, e: Slot, next: int)
      ensures !valid ==> ParseEntry(s, from) == None && next == -1
      ensures valid ==> next >= -1 && ParseEntry(s, from) == Some((e, if next == -1 then None else Some(next)))
    {
      e, next := UNDEFINED, -1;
      var i, kind, category, b;
      valid, i, kind, b := ReadHexDigits(s, from, 2, false);
      if !valid {
        return;
      }
      b := b + 1;
      valid, i, category, b := ReadHexDigits(s, b, 4, true);
      if !valid {
        return;
      }
      if i != 4 {
        return false, e, -1;
      }
      var c := CharAt(s, b);
      if c != ',' && c != ' ' && c != NUL {
        return false, e, -1;
      }
      e := Slot(kind % 0x100, category);
      if c != NUL {
        next := b + 1;
      }
    }

    method FromString(s: string) returns (mask: nat)
      modifies slots
      ensures var r := Read(s, 0, slots.Length);
              && mask == Pow2(|r|) - 1
              && slots[..] == r + old(slots[..])[|r|..]
    {
      mask := 0;
      ghost var read, before: seq<Slot> := [], slots[..];
      var i, at := 0, 0;
      while i < slots.Length && at != -1
        invariant 0 <= i == |read| <= slots.Length && at >= -1
        invariant mask == Pow2(i) - 1
        invariant slots[..] == read + before[i..]
        invariant Read(s, 0, slots.Length) == read + ReadOn(s, at, slots.Length - i)
        decreases slots.Length - i
      {
        var valid, e, next := ParseSlot(s, at);
        ReadStep(s, at, slots.Length - i, valid, e, next, read);
        if !valid {
          return;
        }
        mask := mask + Pow2(i);
        SetSlot(i, e, read, before);
        read := read + [e];
        at := next;
        i := i + 1;
      }
      assert read + [] == read;
    }

    /** Writes the text of the selected slots and its NUL. The caller's part is that they lie in the buffer. */
    method ToString(mask: nat) returns (s: array<char>)
      requires text != null ==> text.Length == charsPerSlot * slots.Length
      requires WritesInside(mask, slots.Length, charsPerSlot * slots.Length)
      modifies this, text
      ensures text == s && s.Length == charsPerSlot * slots.Length
      ensures var t := if mask == 0 then "" else Joined(Selected(slots[..], mask));
              |t| < s.Length && s[..|t|] == t && s[|t|] == NUL
    {
      if text == null {
        text := new char[charsPerSlot * slots.Length];
      }
      s := text;
      PutText(s, mask);
    }

    method PutText(s: array<char>, mask: nat)
      requires WritesInside(mask, slots.Length, s.Length)
      modifies s
      ensures var t := if mask == 0 then "" else Joined(Selected(slots[..], mask));
              |t| < s.Length && s[..|t|] == t && s[|t|] == NUL
    {
      TextFits(slots[..], mask, s.Length);
      if mask == 0 {
        s[0] := NUL;
        return;
      }
      var p := WriteSelected(s, mask);
      p := p - 1;
      s[p] := NUL;
    }

    /** The loop of ToString: every selected entry with its comma. */
    method WriteSelected(s: array<char>, mask0: nat) returns (p: nat)
      requires ENTRY_SIZE * |Selected(slots[..], mask0)| <= s.Length
      modifies s
      ensures p == ENTRY_SIZE * |Selected(slots[..], mask0)| <= s.Length
      ensures s[..p] == Listed(Selected(slots[..], mask0))
    {
      p := 0;
      var i, mask := 0, mask0;
      ghost var all, done := slots[..], [];
      while i < slots.Length
        invariant 0 <= i <= slots.Length && |done| <= i
        invariant Selected(all, mask0) == done + Selected(all[i..], mask)
        invariant p == ENTRY_SIZE * |done| <= s.Length && s[..p] == Listed(done)
      {
        SelectStep(all, i, mask, done);
        if mask % 2 == 1 {
          p := WriteEntry(s, p, slots[i], done);
          done := done + [slots[i]];
        }
        mask := mask / 2;
        i := i + 1;
      }
      assert done + [] == done;
    }

    method WriteEntry(s: array<char>, p0: nat, e: Slot, ghost done: seq<Slot>) returns (p: nat)
      requires p0 + ENTRY_SIZE <= s.Length
      requires p0 == ENTRY_SIZE * |done| && s[..p0] == Listed(done)
      modifies s
      ensures p == p0 + ENTRY_SIZE && s[..p] == Listed(done + [e])
    {
      p := p0;
      s[p], s[p + 1] := Digit(e.kind / 0x10 % 0x10, true), Digit(e.kind % 0x10, true);
      s[p + 2] := ':';
      s[p + 3], s[p + 4] := Digit(e.category / 0x1000 % 0x10, true), Digit(e.category / 0x100 % 0x10, true);
      s[p + 5], s[p + 6] := Digit(e.category / 0x10 % 0x10, true), Digit(e.category % 0x10, true);
      s[p + 7] := ',';
      ListedSnoc(done, e);
      assert s[..p + 8] == s[..p] + (Entry(e) + [',']);
      p := p + 8;
    }

    method SetSlot(i: nat, e: Slot, ghost read: seq<Slot>, ghost before: seq<Slot>)
      requires i == |read| < slots.Length == |before|
      requires slots[..] == read + before[i..]
      modifies slots
      ensures slots[..] == read + [e] + before[i + 1..]
    {
      slots[i] := e;
    }
  }

  /** Read from a position that may be the null pointer, -1. */
  function ReadOn(s: string, at: int, n: nat): (r: seq<Slot>)
    requires at >= -1
    ensures |r| <= n
  {
    if at == -1 then [] else Read(s, at, n)
  }

  lemma ReadStep(s: string, at: nat, n: nat, valid: bool, e: Slot, next: int, read: seq<Slot>)
    requires n > 0 && next >= -1
    requires ParseEntry(s, at) == if valid then Some((e, if next == -1 then None else Some(next))) else None
    ensures read + Read(s, at, n) == if valid then (read + [e]) + ReadOn(s, next, n - 1) else read
  {
    if valid {
      assert Read(s, at, n) == [e] + ReadOn(s, next, n - 1);
      assert read + ([e] + ReadOn(s, next, n - 1)) == (read + [e]) + ReadOn(s, next, n - 1);
    }
  }

  lemma SelectStep(all: seq<Slot>, i: nat, mask: nat, done: seq<Slot>)
    requires i < |all|
    ensures done + Selected(all[i..], mask) ==
            (if mask % 2 == 1 then done + [all[i]] else done) + Selected(all[i + 1..], mask / 2)
  {
    assert all[i..][1..] == all[i + 1..];
  }

  lemma {:induction false} ListedSnoc(es: seq<Slot>, e: Slot)
    ensures Listed(es + [e]) == Listed(es) + (Entry(e) + [','])
  {
    if es == [] {
      assert [e][1..] == [];
      assert Listed([e]) == Entry(e) + [','] + [];
    } else {
      ListedSnoc(es[1..], e);
      assert (es + [e])[1..] == es[1..] + [e];
    }
  }

  // ---------- what the text says ----------

  /** An entry is the type in two upper-case hexadecimal digits, a colon and the category in four. */
  lemma EntryText(e: Slot)
    ensures Entry(e) == HexFixed(e.kind, 2, true) + (":" + HexFixed(e.category, 4, true))
  {
    TwoFixed(e.kind);
    FourFixed(e.category);
  }

  lemma TwoFixed(n: nat)
    ensures HexFixed(n, 2, true) == [Digit(n / 0x10 % 0x10, true), Digit(n % 0x10, true)]
  {
    assert HexFixed(n / 0x10, 1, true) == [] + [Digit(n / 0x10 % 0x10, true)];
  }

  lemma FourFixed(n: nat)
    ensures HexFixed(n, 4, true) ==
            [Digit(n / 0x1000 % 0x10, true), Digit(n / 0x100 % 0x10, true), Digit(n / 0x10 % 0x10, true),
             Digit(n % 0x10, true)]
  {
    TwoFixed(n / 0x100);
    assert n / 0x10 / 0x10 == n / 0x100 && n / 0x100 / 0x10 == n / 0x1000;
    assert HexFixed(n / 0x10, 3, true) == HexFixed(n / 0x100, 2, true) + [Digit(n / 0x10 % 0x10, true)];
  }

  /** Slot i is selected exactly by bit i, behind the selected ones before it. */
  lemma {:induction false} SelectedAt(slots: seq<Slot>, mask: nat, i: nat)
    requires i < |slots| && mask / Pow2(i) % 2 == 1
    ensures var k := Ones(mask, i);
            k < |Selected(slots, mask)| && Selected(slots, mask)[k] == slots[i]
    decreases i
  {
    if i > 0 {
      HalvedPower(mask, i);
      SelectedAt(slots[1..], mask / 2, i - 1);
    }
  }

  lemma HalvedPower(mask: nat, i: nat)
    requires i > 0
    ensures mask / Pow2(i) == mask / 2 / Pow2(i - 1)
  {
    var p := Pow2(i - 1);
    var q, r := mask / (2 * p), mask % (2 * p);
    assert mask == q * (2 * p) + r;
    assert mask / 2 == q * p + r / 2 && r / 2 < p;
    ModUnique(mask / 2, p, q, r / 2);
  }

  // ---------- the size of the buffer ----------

  /** The number of selected slots: the ones among the mask's low bits. */
  function Ones(mask: nat, size: nat): nat
    decreases size
  {
    if size == 0 then 0 else mask % 2 + Ones(mask / 2, size - 1)
  }

  lemma {:induction false} SelectedCount(slots: seq<Slot>, mask: nat)
    ensures |Selected(slots, mask)| == Ones(mask, |slots|)
    decreases |slots|
  {
    if slots != [] {
      SelectedCount(slots[1..], mask / 2);
    }
  }

  /**
   ToString stays inside a buffer of this length exactly when it holds 8 characters for each one of the
   mask among the slots, and there is such a one unless the mask is 0.
   */
  lemma WritesInsideIff(mask: nat, size: nat, length: nat)
    ensures WritesInside(mask, size, length) <==>
            if mask == 0 then 0 < length else 0 < ENTRY_SIZE * Ones(mask, size) <= length
  {
    var w := Writes(mask, size);
    assert mask == 0 ==> w[0] == 0;
    if mask != 0 {
      LoopRange(mask, size, 0);
      assert w[|w| - 1] == ENTRY_SIZE * Ones(mask, size) - 1;
    }
  }

  lemma TextFits(slots: seq<Slot>, mask: nat, length: nat)
    requires WritesInside(mask, |slots|, length)
    ensures if mask == 0 then 0 < length else 0 < ENTRY_SIZE * |Selected(slots, mask)| <= length
  {
    WritesInsideIff(mask, |slots|, length);
    SelectedCount(slots, mask);
  }

  /** The loop writes from p on up to the last comma; without any one only in front of p. */
  lemma {:induction false} LoopRange(mask: nat, size: nat, p: int)
    ensures var w, ones := LoopWrites(mask, size, p), Ones(mask, size);
            && w != [] && w[|w| - 1] == p + ENTRY_SIZE * ones - 1
            && forall k | 0 <= k < |w| :: (if ones == 0 then p - 1 else p) <= w[k] < p + ENTRY_SIZE * ones
    decreases size
  {
    if size > 0 {
      LoopRange(mask / 2, size - 1, if mask % 2 == 1 then p + ENTRY_SIZE else p);
    }
  }

  lemma {:induction false} LowRunOnes(size: nat)
    ensures Ones(Pow2(size) - 1, size) == size
  {
    if size > 0 {
      assert (Pow2(size) - 1) % 2 == 1 && (Pow2(size) - 1) / 2 == Pow2(size - 1) - 1;
      LowRunOnes(size - 1);
    }
  }

  lemma {:induction false} OnesAtMost(mask: nat, size: nat)
    ensures Ones(mask, size) <= size
    decreases size
  {
    if size > 0 {
      OnesAtMost(mask / 2, size - 1);
    }
  }

  lemma {:induction false} NoLowOnes(size: nat, high: nat, p: int)
    ensures LoopWrites(high * Pow2(size), size, p) == [p - 1]
  {
    if size > 0 {
      assert high * Pow2(size) == 2 * (high * Pow2(size - 1));
      NoLowOnes(size - 1, high, p);
    }
  }

  /** With the code's 7 characters per slot the text of all slots never fits. */
  lemma SevenIsShort(size: nat)
    requires size > 0
    ensures !WritesInside(Pow2(size) - 1, size, 7 * size)
  {
    LowRunOnes(size);
    WritesInsideIff(Pow2(size) - 1, size, 7 * size);
  }

  /** With 8 every text does, unless the mask is not 0 and selects nothing. */
  lemma EightIsEnough(mask: nat, size: nat)
    requires size > 0
    ensures WritesInside(mask, size, 8 * size) <==> mask == 0 || Ones(mask, size) > 0
  {
    OnesAtMost(mask, size);
    WritesInsideIff(mask, size, 8 * size);
  }

  /** A mask whose ones all lie above the slots: the only write is the NUL, in front of the buffer. */
  lemma HighMaskWrites(size: nat, high: nat)
    requires high > 0
    ensures Writes(high * Pow2(size), size) == [-1]
  {
    MulMono(1, high, Pow2(size));
    NoLowOnes(size, high, 0);
  }

  // ---------- which entries are accepted ----------

  function DigitAt(s: string, b: nat): nat {
    DigitValue(CharAt(s, b))
  }

  /** The number of k <= 2 digits. */
  function KindAt(s: string, b: nat, k: nat): nat {
    if k == 0 then 0 else if k == 1 then DigitAt(s, b) else DigitAt(s, b) * 0x10 + DigitAt(s, b + 1)
  }

  function CategoryAt(s: string, b: nat): nat {
    ((DigitAt(s, b) * 0x10 + DigitAt(s, b + 1)) * 0x10 + DigitAt(s, b + 2)) * 0x10 + DigitAt(s, b + 3)
  }

  ghost predicate HexesAt(s: string, b: nat, n: nat) {
    forall p | b <= p < b + n :: IsHex(CharAt(s, p))
  }

  /**
   k hexadecimal digits of either case, at most two of them; a ':' behind fewer than two, any character
   behind two; exactly four hexadecimal digits; and a comma, a space or the end.
   */
  ghost predicate IsEntry(s: string, b: nat, k: nat) {
    && k <= 2 && HexesAt(s, b, k) && (k < 2 ==> CharAt(s, b + k) == ':')
    && HexesAt(s, b + k + 1, 4)
    && (CharAt(s, b + k + 5) == ',' || CharAt(s, b + k + 5) == ' ' || CharAt(s, b + k + 5) == '\0')
  }

  lemma OneHex(s: string, b: nat, i: nat, tmp: nat, limit: nat, category: bool)
    requires i < limit && IsHex(CharAt(s, b)) && tmp < 0x1000
    ensures HexDigits(s, b, i, tmp, limit, category) ==
            HexDigits(s, b + 1, i + 1, tmp * 0x10 + DigitAt(s, b), limit, category)
    ensures DigitAt(s, b) < 0x10
  {
    DigitOfValue(CharAt(s, b));
    SmallShift(tmp, DigitAt(s, b));
  }

  lemma SmallShift(tmp: nat, d: nat)
    requires tmp < 0x1000 && d < 0x10
    ensures (tmp * 0x10 + d) % 0x1_0000 == tmp * 0x10 + d
  {
  }

  lemma KindHexes(s: string, b: nat, k: nat)
    requires k <= 2 && HexesAt(s, b, k) && (k < 2 ==> CharAt(s, b + k) == ':')
    ensures HexDigits(s, b, 0, 0, 2, false) == Some((k, KindAt(s, b, k), b + k)) && KindAt(s, b, k) < 0x100
  {
    if k > 0 {
      OneHex(s, b, 0, 0, 2, false);
    }
    if k > 1 {
      OneHex(s, b + 1, 1, DigitAt(s, b), 2, false);
    }
  }

  lemma CategoryHexes(s: string, b: nat)
    requires HexesAt(s, b, 4)
    ensures HexDigits(s, b, 0, 0, 4, true) == Some((4, CategoryAt(s, b), b + 4))
  {
    OneHex(s, b, 0, 0, 4, true);
    OneHex(s, b + 1, 1, DigitAt(s, b), 4, true);
    OneHex(s, b + 2, 2, DigitAt(s, b) * 0x10 + DigitAt(s, b + 1), 4, true);
    OneHex(s, b + 3, 3, (DigitAt(s, b) * 0x10 + DigitAt(s, b + 1)) * 0x10 + DigitAt(s, b + 2), 4, true);
  }

  /** What a digit loop has passed, and where it stops. */
  lemma {:induction false} HexesPassed(s: string, b: nat, i: nat, tmp: nat, limit: nat, category: bool)
    requires i <= limit && HexDigits(s, b, i, tmp, limit, category).Some?
    ensures var (n, _, e) := HexDigits(s, b, i, tmp, limit, category).value;
            && i <= n <= limit && e == b + (n - i) && HexesAt(s, b, n - i)
            && (n < limit ==> if category then CharAt(s, e) == ',' || CharAt(s, e) == NUL else CharAt(s, e) == ':')
    decreases limit - i
  {
    var c := CharAt(s, b);
    if i < limit && !(if category then c == ',' || c == NUL else c == ':') {
      var tmp' := (tmp * 0x10 + DigitValue(c)) % 0x1_0000;
      HexesPassed(s, b + 1, i + 1, tmp', limit, category);
    }
  }

  /** An entry is accepted exactly if it has this form, and is read so. */
  lemma ParsedIff(s: string, b: nat)
    ensures ParseEntry(s, b).Some? <==> exists k :: IsEntry(s, b, k)
    ensures forall k | IsEntry(s, b, k) ::
              ParseEntry(s, b) == Some((Slot(KindAt(s, b, k), CategoryAt(s, b + k + 1)),
                                        if CharAt(s, b + k + 5) == '\0' then None else Some(b + k + 6)))
  {
    forall k | IsEntry(s, b, k)
      ensures ParseEntry(s, b) == Some((Slot(KindAt(s, b, k), CategoryAt(s, b + k + 1)),
                                        if CharAt(s, b + k + 5) == '\0' then None else Some(b + k + 6)))
    {
      EntryRead(s, b, k);
    }
    if ParseEntry(s, b).Some? {
      EntryOfParsed(s, b);
    }
  }

  lemma EntryRead(s: string, b: nat, k: nat)
    requires IsEntry(s, b, k)
    ensures ParseEntry(s, b) == Some((Slot(KindAt(s, b, k), CategoryAt(s, b + k + 1)),
                                      if CharAt(s, b + k + 5) == '\0' then None else Some(b + k + 6)))
  {
    KindHexes(s, b, k);
    CategoryHexes(s, b + k + 1);
    EntryOfDigits(s, b, k, KindAt(s, b, k), CategoryAt(s, b + k + 1), b + k, b + k + 5);
  }

  lemma EntryOfDigits(s: string, b: nat, k: nat, kind: nat, category: nat, b1: nat, b2: nat)
    requires HexDigits(s, b, 0, 0, 2, false) == Some((k, kind, b1)) && kind < 0x100
    requires HexDigits(s, b1 + 1, 0, 0, 4, true) == Some((4, category, b2))
    requires CharAt(s, b2) == ',' || CharAt(s, b2) == ' ' || CharAt(s, b2) == '\0'
    ensures ParseEntry(s, b) == Some((Slot(kind, category), if CharAt(s, b2) == '\0' then None else Some(b2 + 1)))
  {
  }

  lemma EntryOfParsed(s: string, b: nat)
    requires ParseEntry(s, b).Some?
    ensures exists k :: IsEntry(s, b, k)
  {
    HexesPassed(s, b, 0, 0, 2, false);
    var (k, _, e) := HexDigits(s, b, 0, 0, 2, false).value;
    HexesPassed(s, e + 1, 0, 0, 4, true);
    assert IsEntry(s, b, k);
  }

  // ---------- the round trip ----------

  lemma TwoDigits(k: nat)
    requires k < 0x100
    ensures k / 0x10 % 0x10 * 0x10 + k % 0x10 == k
  {
  }

  lemma FourDigits(c: nat)
    requires c < 0x1_0000
    ensures ((c / 0x1000 % 0x10 * 0x10 + c / 0x100 % 0x10) * 0x10 + c / 0x10 % 0x10) * 0x10 + c % 0x10 == c
  {
    var c1 := c / 0x10;
    var c2 := c1 / 0x10;
    assert c2 == c / 0x100 && c2 / 0x10 == c / 0x1000;
  }

  lemma EntryParsed(s: string, b: nat, e: Slot)
    requires InRange(e) && b + 7 <= |s| && s[b..b + 7] == Entry(e)
    requires b + 7 == |s| || s[b + 7] == ','
    ensures ParseEntry(s, b) == Some((e, if b + 7 == |s| then None else Some(b + 8)))
  {
    EntryKind(s, b, e);
    EntryCategory(s, b, e);
    EntryRead(s, b, 2);
  }

  lemma EntryKind(s: string, b: nat, e: Slot)
    requires InRange(e) && b + 7 <= |s| && s[b..b + 7] == Entry(e)
    ensures HexesAt(s, b, 2) && KindAt(s, b, 2) == e.kind
  {
    var t := s[b..b + 7];
    assert s[b] == t[0] && s[b + 1] == t[1];
    DigitRoundTrip(e.kind / 0x10 % 0x10, true);
    DigitRoundTrip(e.kind % 0x10, true);
    TwoDigits(e.kind);
  }

  lemma EntryCategory(s: string, b: nat, e: Slot)
    requires InRange(e) && b + 7 <= |s| && s[b..b + 7] == Entry(e)
    ensures HexesAt(s, b + 3, 4) && CategoryAt(s, b + 3) == e.category
  {
    var t, c := s[b..b + 7], e.category;
    assert s[b + 3] == t[3] && s[b + 4] == t[4] && s[b + 5] == t[5] && s[b + 6] == t[6];
    DigitRoundTrip(c / 0x1000 % 0x10, true);
    DigitRoundTrip(c / 0x100 % 0x10, true);
    DigitRoundTrip(c / 0x10 % 0x10, true);
    DigitRoundTrip(c % 0x10, true);
    FourDigits(c);
  }

  /** The text is these entries with commas between: entry k at 8 * k. */
  ghost predicate Lists(s: string, es: seq<Slot>) {
    && es != [] && |s| == ENTRY_SIZE * |es| - 1
    && forall k | 0 <= k < |es| :: EntryAt(s, es, k)
  }

  ghost predicate EntryAt(s: string, es: seq<Slot>, k: nat)
    requires k < |es| && |s| == ENTRY_SIZE * |es| - 1
  {
    && s[ENTRY_SIZE * k..ENTRY_SIZE * k + 7] == Entry(es[k])
    && (k + 1 < |es| ==> s[ENTRY_SIZE * k + 7] == ',')
  }

  lemma {:induction false} ListedAt(es: seq<Slot>, k: nat)
    requires k < |es|
    ensures var at := ENTRY_SIZE * k;
            Listed(es)[at..at + 7] == Entry(es[k]) && Listed(es)[at + 7] == ','
    decreases k
  {
    var first, rest := Entry(es[0]) + [','], Listed(es[1..]);
    if k == 0 {
      FirstSlice(Entry(es[0]), ',', rest);
    } else {
      ListedAt(es[1..], k - 1);
      EntryBehind(first, rest, ENTRY_SIZE * (k - 1), es[k]);
    }
  }

  lemma EntryBehind(first: string, rest: string, at: nat, e: Slot)
    requires |first| == ENTRY_SIZE && at + 7 < |rest| && rest[at..at + 7] == Entry(e) && rest[at + 7] == ','
    ensures (first + rest)[at + ENTRY_SIZE..at + ENTRY_SIZE + 7] == Entry(e)
    ensures (first + rest)[at + ENTRY_SIZE + 7] == ','
  {
    SliceBehind(first, rest, at, 7);
  }

  lemma FirstSlice(a: string, c: char, b: string)
    ensures (a + [c] + b)[..|a|] == a && (a + [c] + b)[|a|] == c
  {
  }

  lemma SliceBehind(a: string, b: string, at: nat, n: nat)
    requires at + n <= |b|
    ensures (a + b)[|a| + at..|a| + at + n] == b[at..at + n]
  {
  }

  lemma JoinedLists(es: seq<Slot>)
    requires es != []
    ensures Lists(Joined(es), es)
  {
    var s := Joined(es);
    forall k | 0 <= k < |es| ensures EntryAt(s, es, k) {
      ListedAt(es, k);
      assert s[ENTRY_SIZE * k..ENTRY_SIZE * k + 7] == Listed(es)[ENTRY_SIZE * k..ENTRY_SIZE * k + 7];
    }
  }

  /** Entry k is parsed from its place, and the next one starts behind its comma. */
  lemma ParsedAt(s: string, es: seq<Slot>, k: nat)
    requires Lists(s, es) && AllInRange(es) && k < |es|
    ensures ParseEntry(s, ENTRY_SIZE * k) == Some((es[k], if k + 1 == |es| then None else Some(ENTRY_SIZE * (k + 1))))
  {
    assert EntryAt(s, es, k) && InRange(es[k]);
    EntryParsed(s, ENTRY_SIZE * k, es[k]);
  }

  /** The parser finds entry k at its place, and the next one behind its comma. */
  predicate ParsesAt(parse: nat -> Option<(Slot, Option<nat>)>, es: seq<Slot>, k: nat)
    requires k < |es|
  {
    parse(ENTRY_SIZE * k) == Some((es[k], if k + 1 == |es| then None else Some(ENTRY_SIZE * (k + 1))))
  }

  lemma {:induction false} ReadEntries(parse: nat -> Option<(Slot, Option<nat>)>, es: seq<Slot>, k: nat, n: nat)
    requires k < |es| <= k + n && forall i | 0 <= i < |es| :: ParsesAt(parse, es, i)
    ensures ReadWith(parse, ENTRY_SIZE * k, n) == es[k..]
    decreases n
  {
    assert ParsesAt(parse, es, k);
    if k + 1 < |es| {
      ReadEntries(parse, es, k + 1, n - 1);
    }
  }

  /** Reading a text of entries gives back the entries. */
  lemma ReadLists(s: string, es: seq<Slot>, n: nat)
    requires Lists(s, es) && AllInRange(es) && |es| <= n
    ensures Read(s, 0, n) == es
  {
    forall k | 0 <= k < |es| ensures ParsesAt(Parser(s), es, k) {
      ParsedAt(s, es, k);
    }
    ReadEntries(Parser(s), es, 0, n);
  }

  lemma {:induction false} SelectedInRange(slots: seq<Slot>, mask: nat)
    requires AllInRange(slots)
    ensures AllInRange(Selected(slots, mask))
  {
    if slots != [] {
      SelectedInRange(slots[1..], mask / 2);
    }
  }

  /** What FromString reads from the text ToString made of these slots. */
  function ReadBack(slots: seq<Slot>, mask: nat): (r: seq<Slot>)
    ensures |r| <= |slots|
  {
    Read(if mask == 0 then "" else Joined(Selected(slots, mask)), 0, |slots|)
  }

  /**
   FromString on the text of ToString fills the first slots with the selected ones, in order, and
   reports as many low ones as there were.
   */
  lemma FromStringOfToString(slots: seq<Slot>, mask: nat)
    requires AllInRange(slots)
    requires mask == 0 || Selected(slots, mask) != []
    ensures ReadBack(slots, mask) ==
            if mask == 0 then [] else Selected(slots, mask)
  {
    if mask != 0 {
      SelectedInRange(slots, mask);
      var es := Selected(slots, mask);
      JoinedLists(es);
      ReadLists(Joined(es), es, |slots|);
    }
  }

  lemma {:induction false} LowRunSelects(slots: seq<Slot>, p: nat)
    requires p <= |slots|
    ensures Selected(slots, Pow2(p) - 1) == slots[..p]
  {
    if p > 0 {
      assert (Pow2(p) - 1) % 2 == 1 && (Pow2(p) - 1) / 2 == Pow2(p - 1) - 1;
      LowRunSelects(slots[1..], p - 1);
      assert [slots[0]] + slots[1..][..p - 1] == slots[..p];
    } else {
      NothingSelected(slots);
    }
  }

  lemma {:induction false} NothingSelected(slots: seq<Slot>)
    ensures Selected(slots, 0) == []
  {
    if slots != [] {
      NothingSelected(slots[1..]);
    }
  }

  ghost predicate LowRun(mask: nat, most: nat) {
    exists p :: 0 <= p <= most && mask == Pow2(p) - 1
  }

  lemma LowRunCounted(slots: seq<Slot>, mask: nat, p: nat, r: seq<Slot>)
    requires p <= |slots| && mask == Pow2(p) - 1
    requires r == if mask == 0 then [] else Selected(slots, mask)
    ensures r == slots[..|r|] && Pow2(|r|) - 1 == mask
  {
    if mask != 0 {
      LowRunSelects(slots, p);
    }
  }

  /** A low run of ones is the mask of as many ones as it selects. */
  lemma LowRunIff(slots: seq<Slot>, mask: nat, r: seq<Slot>)
    requires r == if mask == 0 then [] else Selected(slots, mask)
    ensures Pow2(|r|) - 1 == mask <==> LowRun(mask, |slots|)
    ensures Pow2(|r|) - 1 == mask ==> r + slots[|r|..] == slots
  {
    if LowRun(mask, |slots|) {
      var p: nat :| p <= |slots| && mask == Pow2(p) - 1;
      LowRunCounted(slots, mask, p, r);
    } else {
      var p := |r|;
      assert p <= |slots|;
    }
  }

  /** The mask, and with it every slot, comes back unchanged exactly when it is a low run of ones. */
  lemma RoundTripIff(slots: seq<Slot>, mask: nat)
    requires AllInRange(slots)
    requires mask == 0 || Selected(slots, mask) != []
    ensures var r := ReadBack(slots, mask);
            && (Pow2(|r|) - 1 == mask <==> LowRun(mask, |slots|))
            && (Pow2(|r|) - 1 == mask ==> r + slots[|r|..] == slots)
  {
    FromStringOfToString(slots, mask);
    LowRunIff(slots, mask, ReadBack(slots, mask));
  }

  /** With only the second of two slots selected its description comes back in the first one. */
  lemma SecondBecomesFirst(a: Slot, b: Slot)
    requires InRange(a) && InRange(b)
    ensures ReadBack([a, b], 2) == [b]
  {
    assert [a, b][1..] == [b] && [b][1..] == [];
    assert Selected([a, b], 2) == Selected([b], 1) == [b];
    FromStringOfToString([a, b], 2);
  }
}
