/** Long file names: directory entries of 13 characters each, written last part first. */
module Lfn {
  import opened Bits
  import opened Blocks
  import opened Bytes
  import opened Options

  const ENTRY_SIZE: nat := 32
  const CHARS: nat := 13
  const NAME_SIZE: nat := 256
  const ATTR_LFN: Byte := 0x0F

  type Entry = seq<Byte>

  /** Where character `k` of an entry is stored. */
  function CharOff(k: nat): nat {
    if k < 5 then 1 + k * 2 else if k < 11 then 14 + (k - 5) * 2 else 28 + (k - 11) * 2
  }

  /** The places of two characters do not overlap, and none meets the entry's other fields. */
  lemma CharPlaces(j: nat, k: nat)
    requires j < k < CHARS
    ensures CharOff(j) + 2 <= CharOff(k) && 1 <= CharOff(j) && CharOff(k) + 1 < ENTRY_SIZE
  {
  }

  function UnitAt(e: Entry, k: nat): nat
    requires |e| == ENTRY_SIZE && k < CHARS
  {
    e[CharOff(k)] as nat + 256 * e[CharOff(k) + 1] as nat
  }

  /** The 16-bit unit stored for index `i` of a name: its characters, then a zero, then filling. */
  function UnitOf(name: seq<Byte>, i: nat): (u: nat)
    ensures u < 0x1_0000
  {
    if i < |name| then name[i] as nat else if i == |name| then 0 else 0xFFFF
  }

  function EntryCount(name: seq<Byte>): nat {
    (|name| + 12) / CHARS
  }

  /** A C string of ASCII characters that fits; `lfn_name_valid` lets only such names through. */
  predicate Ascii(name: seq<Byte>) {
    0 < |name| < NAME_SIZE && forall i :: 0 <= i < |name| ==> 0 < name[i] < 0x80
  }

  /** `e` is part `ord` of `total` of the name. */
  predicate IsEntry(e: Entry, name: seq<Byte>, ord: nat, total: nat, checksum: Byte) {
    && |e| == ENTRY_SIZE && 1 <= ord <= total
    && e[0] as nat == ord + (if ord == total then 0x40 else 0)
    && e[11] == ATTR_LFN && e[13] == checksum && e[12] == e[26] == e[27] == 0
    && forall k: nat :: k < CHARS ==>
      var i := (ord - 1) * CHARS + k; UnitAt(e, k) == if i < |name| then name[i] as nat else if i == |name| then 0 else 0xFFFF
  }

  /** A byte rotated right by one bit. */
  function Turned(b: Byte): (r: nat)
    ensures r < 256
  {
    b as nat % 2 * 128 + b as nat / 2
  }

  /** One round of `sfn_checksum`: rotate right and add, in 8 bits. */
  function Round(sum: Byte, b: Byte): Byte {
    ((Turned(sum) + b as nat) % 256) as Byte
  }

  function Checksum(short: Entry, n: nat): Byte
    requires n <= |short|
  {
    if n == 0 then 0 else Round(Checksum(short, n - 1), short[n - 1])
  }

  /** `sfn_checksum`. */
  method SfnChecksum(short: Entry) returns (sum: Byte)
    requires |short| == ENTRY_SIZE
    ensures sum == Checksum(short, 11)
  {
    sum := 0;
    for i := 0 to 11
      invariant sum == Checksum(short, i)
    {
      sum := ((sum as nat % 2 * 128 + sum as nat / 2 + short[i] as nat) % 256) as Byte;
    }
  }

  /** A round forgets nothing: of sum, byte and result, any two determine the third. */
  lemma RoundInjective(s: Byte, b: Byte, s': Byte, b': Byte)
    requires Round(s, b) == Round(s', b')
    ensures s == s' <==> b == b'
  {
    TurnsBack(s, s');
    SameRest(Turned(s), b as nat, Turned(s'), b' as nat);
  }

  lemma TurnsBack(s: Byte, s': Byte)
    ensures Turned(s) == Turned(s') <==> s == s'
  {
  }

  lemma SameRest(p: nat, b: nat, p': nat, b': nat)
    requires p < 256 && b < 256 && p' < 256 && b' < 256 && (p + b) % 256 == (p' + b') % 256
    ensures p == p' <==> b == b'
  {
  }

  /** Bytes from `i` on that agree carry any difference in the sum before them through. */
  lemma {:induction false} SumApart(x: Entry, y: Entry, i: nat, n: nat)
    requires |x| == |y| && i <= n <= |x| && forall k :: i <= k < n ==> x[k] == y[k]
    ensures Checksum(x, n) == Checksum(y, n) <==> Checksum(x, i) == Checksum(y, i)
    decreases n
  {
    if i < n {
      SumApart(x, y, i, n - 1);
      if Checksum(x, n) == Checksum(y, n) { RoundInjective(Checksum(x, n - 1), x[n - 1], Checksum(y, n - 1), y[n - 1]); }
    }
  }

  lemma {:induction false} SumSame(x: Entry, y: Entry, n: nat)
    requires n <= |x| && n <= |y| && forall k :: 0 <= k < n ==> x[k] == y[k]
    ensures Checksum(x, n) == Checksum(y, n)
  {
    if n > 0 { SumSame(x, y, n - 1); }
  }

  /** Changing any one of the bytes changes the checksum. */
  lemma ChangeShows(x: Entry, i: nat, b: Byte, n: nat)
    requires i < n <= |x| && b != x[i]
    ensures Checksum(x[i := b], n) != Checksum(x, n)
  {
    var y := x[i := b];
    SumSame(x, y, i);
    SumApart(x, y, i + 1, n);
    if Checksum(x, i + 1) == Checksum(y, i + 1) { RoundInjective(Checksum(x, i), x[i], Checksum(y, i), b); }
  }

  lemma EqualRests(x: nat, y: nat)
    requires x < 512 && y < 512
    ensures x % 256 == y % 256 <==> x == y || x == y + 256 || y == x + 256
  {
  }

  /** By how much a rotation moves a byte: no two bytes are moved alike, but 0 and 255, which stay. */
  lemma TurnsApart(u: Byte, v: Byte)
    ensures (Turned(u) + v as nat) % 256 == (Turned(v) + u as nat) % 256 <==> u == v || Extremes(u, v)
  {
    EqualRests(Turned(u) + v as nat, Turned(v) + u as nat);
    TurnsLinear(u as nat / 2, u as nat % 2, v as nat / 2, v as nat % 2);
  }

  lemma TurnsLinear(k: nat, r: nat, l: nat, s: nat)
    requires k < 128 && l < 128 && r < 2 && s < 2
    ensures var x, y := r * 128 + k + (l * 2 + s), s * 128 + l + (k * 2 + r);
      x == y || x == y + 256 || y == x + 256 <==> (k == l && r == s) || (k == r == 0 && l == 127 && s == 1) || (l == s == 0 && k == 127 && r == 1)
  {
  }

  predicate Extremes(u: Byte, v: Byte) {
    (u == 0 && v == 255) || (u == 255 && v == 0)
  }

  /** Swapping two neighbours changes the checksum, but for equal bytes and those that bring the sum to 0 and to 255. */
  lemma SwapShows(x: Entry, i: nat, n: nat)
    requires i + 1 < n <= |x|
    ensures var y := x[i := x[i + 1]][i + 1 := x[i]];
      Checksum(x, n) == Checksum(y, n) <==>
        x[i] == x[i + 1] || Extremes(Round(Checksum(x, i), x[i]), Round(Checksum(x, i), x[i + 1]))
  {
    var y := x[i := x[i + 1]][i + 1 := x[i]];
    SumSame(x, y, i);
    SumApart(x, y, i + 2, n);
    var s, a, b := Checksum(x, i), x[i], x[i + 1];
    SwapTwo(s, a, b);
    assert Checksum(x, i + 2) == Round(Round(s, a), b) && Checksum(y, i + 2) == Round(Round(s, b), a);
  }

  lemma SwapTwo(s: Byte, a: Byte, b: Byte)
    ensures Round(Round(s, a), b) == Round(Round(s, b), a) <==> a == b || Extremes(Round(s, a), Round(s, b))
  {
    var u, v := Round(s, a), Round(s, b);
    TurnsApart(u, v);
    SameShift(Turned(s), a as nat, b as nat, Turned(u), Turned(v), u as nat, v as nat);
  }

  /** Adding `b` and `a` to two sums is like adding what they bring the sum `t` to. */
  lemma SameShift(t: nat, a: nat, b: nat, p: nat, q: nat, u: nat, v: nat)
    requires t < 256 && a < 256 && b < 256 && p < 256 && q < 256 && u == (t + a) % 256 && v == (t + b) % 256
    ensures (p + b) % 256 == (q + a) % 256 <==> (p + v) % 256 == (q + u) % 256
    ensures u == v <==> a == b
  {
    EqualRests(p + b, q + a);
    EqualRests(p + v, q + u);
    EqualRests(t + a, u);
    EqualRests(t + b, v);
  }

  function PutUnit(e: Entry, k: nat, u: nat): Entry
    requires |e| == ENTRY_SIZE && k < CHARS && u < 0x1_0000
  {
    e[CharOff(k) := (u % 256) as Byte][CharOff(k) + 1 := (u / 256) as Byte]
  }

  /** The fields other than the characters are the same. */
  predicate SameFields(d: Entry, e: Entry) {
    |d| == |e| == ENTRY_SIZE && forall i :: i in {0, 11, 12, 13, 26, 27} ==> d[i] == e[i]
  }

  lemma PutUnitKeeps(e: Entry, k: nat, u: nat)
    requires |e| == ENTRY_SIZE && k < CHARS && u < 0x1_0000
    ensures var r := PutUnit(e, k, u); |r| == ENTRY_SIZE && UnitAt(r, k) == u && SameFields(r, e)
    ensures var r := PutUnit(e, k, u); forall j: nat :: j < k ==> UnitAt(r, j) == UnitAt(e, j)
  {
    var r := PutUnit(e, k, u);
    forall j: nat | j < k ensures UnitAt(r, j) == UnitAt(e, j) { CharPlaces(j, k); }
  }

  /** `lfn_build_entry`. */
  method BuildEntry(name: seq<Byte>, ord: nat, total: nat, checksum: Byte) returns (e: Entry)
    requires 1 <= ord <= total <= 20
    ensures IsEntry(e, name, ord, total, checksum)
  {
    e := seq(ENTRY_SIZE, _ => 0xFF);
    e := e[0 := (ord + if ord == total then 0x40 else 0) as Byte];
    e := e[11 := ATTR_LFN][12 := 0][13 := checksum][26 := 0][27 := 0];
    var base := (ord - 1) * CHARS;
    ghost var e0 := e;
    for k := 0 to CHARS
      invariant SameFields(e, e0)
      invariant forall j: nat :: j < k ==> UnitAt(e, j) == UnitOf(name, base + j)
    {
      var u := UnitOf(name, base + k);
      PutUnitKeeps(e, k, u);
      e := PutUnit(e, k, u);
    }
  }

  /** The entries that `write_named_entry` stores in front of the short entry, in directory order. */
  method WriteNamed(name: seq<Byte>, short: Entry) returns (entries: seq<Entry>)
    requires 0 < |name| < NAME_SIZE && |short| == ENTRY_SIZE
    ensures |entries| == EntryCount(name) && (|entries| - 1) * CHARS < |name| <= |entries| * CHARS
    ensures forall i: nat :: i < |entries| ==>
      IsEntry(entries[i], name, |entries| - i, |entries|, Checksum(short, 11))
  {
    var count := EntryCount(name);
    var checksum := SfnChecksum(short);
    entries := [];
    for i := 0 to count
      invariant |entries| == i
      invariant forall j: nat :: j < i ==> IsEntry(entries[j], name, count - j, count, Checksum(short, 11))
    {
      var e := BuildEntry(name, count - i, count, checksum);
      entries := entries + [e];
    }
  }

  /** Up to the first zero, as a C string is read. */
  function CString(s: seq<Byte>): (r: seq<Byte>)
    ensures r <= s && 0 !in r
  {
    if s == [] || s[0] == 0 then [] else [s[0]] + CString(s[1..])
  }

  lemma {:induction false} CStringOf(s: seq<Byte>, name: seq<Byte>)
    requires |name| < |s| && (forall i :: 0 <= i < |name| ==> name[i] != 0 && s[i] == name[i]) && s[|name|] == 0
    ensures CString(s) == name
  {
    if name != [] {
      CStringOf(s[1..], name[1..]);
      assert name == [name[0]] + name[1..];
    }
  }

  /** What `buf` holds of the name from index `from` on is right, and the rest of it is still zero. */
  predicate Holds(buf: seq<Byte>, name: seq<Byte>, from: nat) {
    && |buf| == NAME_SIZE
    && forall i: nat :: i < NAME_SIZE ==> buf[i] == if from <= i < |name| then name[i] else 0
  }

  /** The unit ends the name: a zero or filling. */
  predicate Ends(e: Entry, k: nat)
    requires |e| == ENTRY_SIZE && k < CHARS
  {
    UnitAt(e, k) == 0 || UnitAt(e, k) == 0xFFFF
  }

  /** The character is stored: no unit up to it ends the name. */
  predicate Stored(e: Entry, k: nat)
    requires |e| == ENTRY_SIZE && k < CHARS
  {
    forall j: nat :: j <= k ==> UnitAt(e, j) != 0 && UnitAt(e, j) != 0xFFFF
  }

  /** The first unit that ends the name decides what is stored. */
  lemma StoredBefore(e: Entry, k: nat, j: nat)
    requires |e| == ENTRY_SIZE && k <= CHARS && j < CHARS && (k < CHARS ==> Ends(e, k)) && forall i: nat :: i < k ==> !Ends(e, i)
    ensures Stored(e, j) <==> j < k
  {
    if j < k {
      forall i: nat | i <= j ensures UnitAt(e, i) != 0 && UnitAt(e, i) != 0xFFFF { assert !Ends(e, i); }
    }
  }

  function CharOf(e: Entry, k: nat): Byte
    requires |e| == ENTRY_SIZE && k < CHARS
  {
    if UnitAt(e, k) < 0x80 then UnitAt(e, k) as Byte else 0x3F
  }

  /** The byte at index `i` of the name after an entry for the 13 from `base` on is parsed. */
  function CharAfter(e: Entry, base: nat, i: nat, was: Byte): Byte
    requires |e| == ENTRY_SIZE
  {
    if base <= i < base + CHARS && i < NAME_SIZE - 1 && Stored(e, i - base) then
      if UnitAt(e, i - base) < 0x80 then UnitAt(e, i - base) as Byte else 0x3F
    else was
  }

  /** Part number `part` of the name is in the mask of parts seen. */
  predicate Sees(seen: nat, part: nat) {
    part >= 1 && Bit(seen, part - 1)
  }

  function Mark(seen: nat, part: nat): nat
    requires part >= 1
  {
    Or(seen, Pow2(part - 1))
  }

  lemma SeeNone()
    ensures forall p: nat :: !Sees(0, p)
  {
    forall p: nat ensures !Sees(0, p) { if p >= 1 { ZeroBits(p - 1); } }
  }

  lemma SeeMore(seen: nat, ord: nat)
    requires ord >= 1
    ensures forall p: nat :: Sees(Mark(seen, ord), p) <==> Sees(seen, p) || p == ord
  {
    var more := Mark(seen, ord);
    forall p: nat ensures Sees(more, p) <==> Sees(seen, p) || p == ord {
      if p >= 1 {
        OrBits(seen, Pow2(ord - 1), p - 1);
        PowerBits(ord - 1, p - 1);
      }
    }
  }

  /** The mask test of `lfn_valid` tells whether all parts were seen. */
  lemma SeeAll(seen: nat, last: nat)
    ensures And(seen, Pow2(last) - 1) == Pow2(last) - 1 <==> forall p: nat :: 1 <= p <= last ==> Sees(seen, p)
  {
    CoversLow(seen, last);
    if forall p: nat :: 1 <= p <= last ==> Sees(seen, p) {
      forall p: nat | p < last ensures Bit(seen, p) { assert Sees(seen, p + 1); }
    } else {
      var p: nat :| 1 <= p <= last && !Sees(seen, p);
      assert !Sees(seen, p) && !Bit(seen, p - 1);
    }
  }

  /** `struct lfn_state`; bit `p - 1` of `seen` stands for part `p`. */
  class Parser {
    var name: seq<Byte>
    var checksum: Byte
    var seen: nat
    var last: nat
    var active: bool

    constructor ()
      ensures !active && name == seq(NAME_SIZE, _ => 0) && seen == 0 && last == 0
    {
      name, checksum, seen, last, active := seq(NAME_SIZE, _ => 0), 0, 0, 0, false;
    }

    /** The entry is one that the parser takes. */
    predicate Accepts(e: Entry)
      reads this
      requires |e| == ENTRY_SIZE
    {
      && e[11] == ATTR_LFN && e[0] != 0 && e[0] != 0xE5 && 1 <= e[0] as nat % 32 <= 20
      && (e[0] as nat / 64 % 2 == 1 || (active && checksum == e[13]))
    }

    /** The character loop of `lfn_parse_entry`. */
    method StoreChars(e: Entry, base: nat)
      requires |e| == ENTRY_SIZE && |name| == NAME_SIZE
      modifies this`name
      ensures |name| == NAME_SIZE
      ensures forall i: nat :: i < NAME_SIZE ==> name[i] == CharAfter(e, base, i, old(name)[i])
    {
      for k := 0 to CHARS
        invariant |name| == NAME_SIZE
        invariant forall j: nat :: j < k ==> !Ends(e, j)
        invariant forall i: nat :: i < NAME_SIZE ==>
          name[i] == if base <= i < base + k && i < NAME_SIZE - 1 then CharOf(e, i - base) else old(name)[i]
      {
        if Ends(e, k) {
          forall i: nat | i < NAME_SIZE ensures name[i] == CharAfter(e, base, i, old(name)[i]) {
            if base <= i < base + CHARS { StoredBefore(e, k, i - base); }
          }
          return;
        }
        if base + k < NAME_SIZE - 1 { name := name[base + k := CharOf(e, k)]; }
      }
      forall i: nat | i < NAME_SIZE ensures name[i] == CharAfter(e, base, i, old(name)[i]) {
        if base <= i < base + CHARS { StoredBefore(e, CHARS, i - base); }
      }
    }

    /** `lfn_parse_entry`. */
    method Parse(e: Entry) returns (ok: bool)
      requires |e| == ENTRY_SIZE && |name| == NAME_SIZE
      modifies this
      ensures |name| == NAME_SIZE && ok == old(Accepts(e))
      ensures !ok ==> name == old(name) && seen == old(seen) && last == old(last) && active == old(active) && checksum == old(checksum)
      ensures ok ==> var ord := e[0] as nat % 32; var first := e[0] as nat / 64 % 2 == 1;
        && active && checksum == e[13] && last == (if first then ord else old(last))
        && (forall p: nat :: Sees(seen, p) <==> p == ord || (!first && Sees(old(seen), p)))
        && forall i: nat :: i < NAME_SIZE ==> name[i] == CharAfter(e, (ord - 1) * CHARS, i, if first then 0 else old(name)[i])
    {
      if e[11] != ATTR_LFN { return false; }
      if e[0] == 0 || e[0] == 0xE5 { return false; }
      var ord := e[0] as nat % 32;
      if ord < 1 || ord > 20 { return false; }
      if e[0] as nat / 64 % 2 == 1 {
        name := seq(NAME_SIZE, _ => 0);
        checksum, seen, last, active := e[13], 0, ord, true;
      } else if !active || checksum != e[13] {
        return false;
      }
      SeeMore(seen, ord);
      SeeNone();
      ghost var was := seen;
      seen := Mark(seen, ord);
      assert forall p: nat :: Sees(seen, p) <==> Sees(was, p) || p == ord;
      assert forall i: nat :: i < NAME_SIZE ==> name[i] == if e[0] as nat / 64 % 2 == 1 then 0 else old(name)[i];
      StoreChars(e, (ord - 1) * CHARS);
      return true;
    }

    /** `lfn_valid`: the mask covers all parts up to the last, and the short entry is the one the name was written for. */
    method Valid(short: Entry) returns (ok: bool)
      requires |short| == ENTRY_SIZE
      ensures ok <==> active && last != 0 && Checksum(short, 11) == checksum && forall p: nat :: 1 <= p <= last ==> Sees(seen, p)
    {
      if !active || last == 0 { return false; }
      var sum := SfnChecksum(short);
      if sum != checksum { return false; }
      var need := Pow2(last) - 1;
      SeeAll(seen, last);
      ok := And(seen, need) == need;
    }
  }

  /** Parts `ord` to `total` of the name have been parsed, from the last down. */
  ghost predicate Parsed(p: Parser, name: seq<Byte>, ord: nat, total: nat, checksum: Byte)
    reads p
  {
    && p.active && p.last == total && p.checksum == checksum && 1 <= ord <= total
    && (forall x: nat :: Sees(p.seen, x) <==> ord <= x <= total)
    && Holds(p.name, name, (ord - 1) * CHARS)
  }

  /** A character of a part is stored and read back. */
  lemma CharBack(e: Entry, name: seq<Byte>, ord: nat, total: nat, checksum: Byte, k: nat)
    requires IsEntry(e, name, ord, total, checksum) && Ascii(name) && k < CHARS
    ensures var i := (ord - 1) * CHARS + k;
      if i < |name| then Stored(e, k) && CharOf(e, k) == name[i] else !Stored(e, k)
  {
    var base := (ord - 1) * CHARS;
    assert UnitAt(e, k) == UnitOf(name, base + k);
    if base + k < |name| {
      forall j: nat | j <= k ensures !Ends(e, j) { assert UnitAt(e, j) == UnitOf(name, base + j); }
    } else {
      assert Ends(e, k);
    }
  }

  /** After part `ord`, the name is right from that part on. */
  lemma PartBack(e: Entry, name: seq<Byte>, ord: nat, total: nat, checksum: Byte, was: seq<Byte>, now: seq<Byte>)
    requires IsEntry(e, name, ord, total, checksum) && Ascii(name) && |now| == NAME_SIZE
    requires Holds(was, name, ord * CHARS)
    requires forall i: nat :: i < NAME_SIZE ==> now[i] == CharAfter(e, (ord - 1) * CHARS, i, was[i])
    ensures Holds(now, name, (ord - 1) * CHARS)
  {
    var base := (ord - 1) * CHARS;
    forall i: nat | i < NAME_SIZE ensures now[i] == if base <= i < |name| then name[i] else 0 {
      if base <= i < base + CHARS { CharBack(e, name, ord, total, checksum, i - base); }
    }
  }

  /** The first byte of an entry gives back the part number and the mark of the last part. */
  lemma FirstByte(name: seq<Byte>, ord: nat, total: nat)
    requires Ascii(name) && total == EntryCount(name) && 1 <= ord <= total
    ensures total <= 20 && |name| <= total * CHARS
    ensures var b := ord + (if ord == total then 0x40 else 0);
      b % 32 == ord && (b / 64 % 2 == 1 <==> ord == total) && b != 0xE5
  {
  }

  /** Nothing is held of the name from its end on. */
  lemma HoldsNone(name: seq<Byte>, from: nat)
    requires |name| <= from
    ensures Holds(seq(NAME_SIZE, _ => 0), name, from)
  {
  }

  /** One entry parsed on the way down from the last part. */
  method ParsePart(p: Parser, e: Entry, ghost name: seq<Byte>, ghost ord: nat, ghost total: nat, ghost checksum: Byte)
    requires IsEntry(e, name, ord, total, checksum) && Ascii(name) && total == EntryCount(name) && |p.name| == NAME_SIZE
    requires ord < total ==> Parsed(p, name, ord + 1, total, checksum)
    modifies p
    ensures Parsed(p, name, ord, total, checksum)
  {
    ghost var was := if ord == total then seq(NAME_SIZE, _ => 0) else p.name;
    FirstByte(name, ord, total);
    if ord == total { HoldsNone(name, ord * CHARS); }
    var ok := p.Parse(e);
    PartBack(e, name, ord, total, checksum, was, p.name);
  }

  /** What a directory scan makes of the entries in front of a short entry: `dir_find`'s loop and `lfn_apply`. */
  method ReadName(p: Parser, entries: seq<Entry>, short: Entry, ghost name: seq<Byte>) returns (r: Option<seq<Byte>>)
    requires |p.name| == NAME_SIZE && Ascii(name) && |short| == ENTRY_SIZE && |entries| == EntryCount(name)
    requires forall i: nat :: i < |entries| ==> IsEntry(entries[i], name, |entries| - i, |entries|, Checksum(short, 11))
    modifies p
    ensures r == Some(name)
  {
    ghost var count, sum := |entries|, Checksum(short, 11);
    for i := 0 to |entries|
      invariant |p.name| == NAME_SIZE && (i > 0 ==> Parsed(p, name, count - i + 1, count, sum))
    {
      ParsePart(p, entries[i], name, count - i, count, sum);
    }
    var ok := p.Valid(short);
    if !ok { return None; }
    var buf := p.name[..NAME_SIZE - 1] + [0];
    CStringOf(buf, name);
    return Some(CString(buf));
  }

  /** A valid name, written in front of any short entry, is read back whole, whatever was parsed before. */
  method RoundTrip(p: Parser, name: seq<Byte>, short: Entry) returns (r: Option<seq<Byte>>)
    requires |p.name| == NAME_SIZE && |short| == ENTRY_SIZE && 0 < |name| < 256 && forall i :: 0 <= i < |name| ==> 0 < name[i] < 0x80
    modifies p
    ensures r == Some(name)
  {
    var entries := WriteNamed(name, short);
    r := ReadName(p, entries, short, name);
  }
}
