/**
 * The EEPROM program store (src/main.cpp:37-58, 116-192).
 *
 * The 1024-byte EEPROM holds a 5-byte version header followed by fixed-size
 * slots, one Program record each. Every write is diff-gated, to spare the
 * EEPROM's write endurance; the ghost counter `writes` of `Eeprom` counts
 * the calls of `EEPROM.write`.
 */
module ProgramStore {
  import opened ProgramImage

  const StorageSize: nat := 1024
  /** `version`: the characters "0001" and the NUL that `sizeof(version)` counts. */
  const Version: seq<byte> := [0x30, 0x30, 0x30, 0x31, 0x00]
  const HeaderSize: nat := 5
  /** `maxPrgs`: how many whole records fit behind the header. */
  const MaxPrgs: nat := (StorageSize - HeaderSize) / RecordSize

  lemma LayoutConstants()
    ensures |Version| == HeaderSize && MaxPrgs == 48
  {
  }

  /** The first EEPROM address of slot `slot` (slots are numbered from 1). */
  function SlotAddr(slot: int): (a: nat)
    requires 1 <= slot <= MaxPrgs
    ensures HeaderSize <= a && a + RecordSize <= StorageSize
  {
    slot * RecordSize - RecordSize + HeaderSize
  }

  /** Distinct slots occupy disjoint address ranges, laid out in slot order. */
  lemma SlotsDisjoint(s1: int, s2: int)
    requires 1 <= s1 < s2 <= MaxPrgs
    ensures SlotAddr(s1) + RecordSize <= SlotAddr(s2)
  {
  }

  /** The record stored in slot `slot`. */
  function Stored(mem: seq<byte>, slot: int): (r: seq<byte>)
    requires |mem| == StorageSize && 1 <= slot <= MaxPrgs
    ensures |r| == RecordSize
    ensures forall i :: 0 <= i < RecordSize ==> r[i] == mem[SlotAddr(slot) + i]
  {
    mem[SlotAddr(slot)..SlotAddr(slot) + RecordSize]
  }

  /** The EEPROM contents once `img` has been saved into slot `slot`. */
  function Saved(mem: seq<byte>, slot: int, img: seq<byte>): (r: seq<byte>)
    requires |mem| == StorageSize && 1 <= slot <= MaxPrgs && |img| == RecordSize
    ensures |r| == StorageSize
    ensures forall i :: 0 <= i < StorageSize ==>
      r[i] == if SlotAddr(slot) <= i < SlotAddr(slot) + RecordSize then img[i - SlotAddr(slot)] else mem[i]
  {
    var a := SlotAddr(slot);
    mem[..a] + img + mem[a + RecordSize..]
  }

  /** Saving and then loading the same slot gives back the saved record. */
  lemma SaveLoadRoundTrip(mem: seq<byte>, slot: int, img: seq<byte>)
    requires |mem| == StorageSize && 1 <= slot <= MaxPrgs && |img| == RecordSize
    ensures Stored(Saved(mem, slot, img), slot) == img
  {
  }

  /** Saving one slot leaves every other slot, and the header, as it was. */
  lemma SaveKeepsOtherSlots(mem: seq<byte>, slot: int, img: seq<byte>, other: int)
    requires |mem| == StorageSize && 1 <= slot <= MaxPrgs && |img| == RecordSize
    requires 1 <= other <= MaxPrgs && other != slot
    ensures Stored(Saved(mem, slot, img), other) == Stored(mem, other)
    ensures Saved(mem, slot, img)[..HeaderSize] == mem[..HeaderSize]
  {
    if other < slot {
      SlotsDisjoint(other, slot);
    } else {
      SlotsDisjoint(slot, other);
    }
  }

  /** Saving the record a slot already holds changes nothing. */
  lemma SaveStoredIsIdentity(mem: seq<byte>, slot: int)
    requires |mem| == StorageSize && 1 <= slot <= MaxPrgs
    ensures Saved(mem, slot, Stored(mem, slot)) == mem
  {
  }

  /** The number of positions at which `a` and `b` differ. */
  function DiffCount(a: seq<byte>, b: seq<byte>): (n: nat)
    requires |a| == |b|
    ensures n <= |a|
  {
    if |a| == 0 then 0
    else DiffCount(a[..|a| - 1], b[..|b| - 1]) + if a[|a| - 1] != b[|b| - 1] then 1 else 0
  }

  /** Two strings of bytes differ nowhere exactly when they are equal. */
  lemma {:induction false} DiffCountZeroIff(a: seq<byte>, b: seq<byte>)
    requires |a| == |b|
    ensures DiffCount(a, b) == 0 <==> a == b
  {
    if |a| > 0 {
      DiffCountZeroIff(a[..|a| - 1], b[..|b| - 1]);
      if a[..|a| - 1] == b[..|b| - 1] && a[|a| - 1] == b[|b| - 1] {
        assert a == a[..|a| - 1] + [a[|a| - 1]];
        assert b == b[..|b| - 1] + [b[|b| - 1]];
      }
    }
  }

  /** The number of non-zero bytes in `s`. */
  function NonZeroCount(s: seq<byte>): (n: nat)
    ensures n <= |s|
  {
    if |s| == 0 then 0
    else NonZeroCount(s[..|s| - 1]) + if s[|s| - 1] != 0 then 1 else 0
  }

  /** The contents after a wipe: the version header, then zeros. */
  const Wiped: seq<byte> := Version + seq(StorageSize - HeaderSize, _ => 0 as byte)

  /** The EEPROM: 1024 bytes and a ghost count of the writes it has received. */
  class Eeprom {
    const mem: array<byte>
    ghost var writes: nat

    constructor (contents: seq<byte>)
      ensures mem[..] == contents && writes == 0 && fresh(mem)
    {
      mem := new byte[|contents|](i requires 0 <= i < |contents| => contents[i]);
      writes := 0;
    }

    /** `EEPROM.write(addr, b)`. */
    method Write(addr: int, b: byte)
      requires 0 <= addr < mem.Length
      modifies this, mem
      ensures mem[..] == old(mem[..])[addr := b]
      ensures writes == old(writes) + 1
    {
      mem[addr] := b;
      writes := writes + 1;
    }
  }

  /** The first loop of `initEEPROM`: how many header bytes differ from the version. */
  method HeaderDiff(e: Eeprom) returns (diff: nat)
    requires e.mem.Length == StorageSize
    ensures diff == DiffCount(e.mem[..HeaderSize], Version)
    ensures diff == 0 <==> e.mem[..HeaderSize] == Version
  {
    diff := 0;
    var i := 0;
    while i < HeaderSize
      invariant 0 <= i <= HeaderSize
      invariant diff == DiffCount(e.mem[..i], Version[..i])
    {
      var t := e.mem[i];
      assert e.mem[..i + 1][..i] == e.mem[..i] && Version[..i + 1][..i] == Version[..i];
      if t != Version[i] {
        diff := diff + 1;
      }
      i := i + 1;
    }
    assert e.mem[..HeaderSize] == e.mem[..i] && Version == Version[..i];
    DiffCountZeroIff(e.mem[..HeaderSize], Version);
  }

  /** The second loop of `initEEPROM`: zero every non-zero byte behind the header. */
  method WipeBody(e: Eeprom)
    requires e.mem.Length == StorageSize
    modifies e, e.mem
    ensures forall j :: 0 <= j < HeaderSize ==> e.mem[j] == old(e.mem[j])
    ensures forall j :: HeaderSize <= j < StorageSize ==> e.mem[j] == 0
    ensures e.writes == old(e.writes) + NonZeroCount(old(e.mem[HeaderSize..]))
  {
    ghost var before := e.mem[..];
    var i := HeaderSize;
    while i < StorageSize
      invariant HeaderSize <= i <= StorageSize
      invariant forall j :: 0 <= j < HeaderSize ==> e.mem[j] == before[j]
      invariant forall j :: HeaderSize <= j < i ==> e.mem[j] == 0
      invariant forall j :: i <= j < StorageSize ==> e.mem[j] == before[j]
      invariant e.writes == old(e.writes) + NonZeroCount(before[HeaderSize..i])
    {
      var t := e.mem[i];
      assert before[HeaderSize..i + 1][..i - HeaderSize] == before[HeaderSize..i];
      if t > 0 {
        e.Write(i, 0);
      }
      i := i + 1;
    }
    assert before[HeaderSize..i] == before[HeaderSize..];
  }

  /** The third loop of `initEEPROM`: write each header byte that differs from the version. */
  method WriteHeader(e: Eeprom)
    requires e.mem.Length == StorageSize
    modifies e, e.mem
    ensures forall j :: 0 <= j < HeaderSize ==> e.mem[j] == Version[j]
    ensures forall j :: HeaderSize <= j < StorageSize ==> e.mem[j] == old(e.mem[j])
    ensures e.writes == old(e.writes) + DiffCount(old(e.mem[..HeaderSize]), Version)
  {
    ghost var before := e.mem[..];
    ghost var header := before[..HeaderSize];
    assert header == old(e.mem[..HeaderSize]);
    var i := 0;
    while i < HeaderSize
      invariant 0 <= i <= HeaderSize
      invariant forall j :: 0 <= j < i ==> e.mem[j] == Version[j]
      invariant forall j :: i <= j < StorageSize ==> e.mem[j] == before[j]
      invariant e.writes == old(e.writes) + DiffCount(before[..i], Version[..i])
    {
      var t := e.mem[i];
      assert before[..i + 1][..i] == before[..i] && Version[..i + 1][..i] == Version[..i];
      if t != Version[i] {
        e.Write(i, Version[i]);
      }
      i := i + 1;
    }
    assert before[..i] == header && Version[..i] == Version;
  }

  /**
   * `initEEPROM`: if the stored header is not the version, zero every byte
   * behind the header and then write the header, writing each byte only when
   * it differs from what is stored.
   */
  method InitEeprom(e: Eeprom)
    requires e.mem.Length == StorageSize
    modifies e, e.mem
    ensures old(e.mem[..HeaderSize]) == Version ==> e.mem[..] == old(e.mem[..]) && e.writes == old(e.writes)
    ensures old(e.mem[..HeaderSize]) != Version ==>
      e.mem[..] == Wiped &&
      e.writes == old(e.writes) + NonZeroCount(old(e.mem[HeaderSize..])) + DiffCount(old(e.mem[..HeaderSize]), Version)
  {
    var diff := HeaderDiff(e);
    if diff > 0 {
      WipeBody(e);
      ghost var wiped := e.mem[..];
      assert wiped[..HeaderSize] == old(e.mem[..HeaderSize]);
      WriteHeader(e);
      assert e.mem[..] == Wiped by {
        assert forall j :: 0 <= j < StorageSize ==> e.mem[j] == Wiped[j];
      }
    }
  }

  /** `loadProgram`: copy slot `slot` into the active record. */
  method LoadProgram(e: Eeprom, slot: int, prog: array<byte>)
    requires e.mem.Length == StorageSize && prog.Length == RecordSize && 1 <= slot <= MaxPrgs
    modifies prog
    ensures prog[..] == Stored(e.mem[..], slot)
  {
    var addr := SlotAddr(slot);
    var i := 0;
    while i < RecordSize
      invariant 0 <= i <= RecordSize
      invariant forall j :: 0 <= j < i ==> prog[j] == e.mem[addr + j]
    {
      prog[i] := e.mem[addr + i];
      i := i + 1;
    }
  }

  /**
   * `saveProgram`: copy the active record into slot `slot`, writing only the
   * bytes that differ from what is stored.
   */
  method SaveProgram(e: Eeprom, slot: int, prog: array<byte>)
    requires e.mem.Length == StorageSize && prog.Length == RecordSize && 1 <= slot <= MaxPrgs
    modifies e, e.mem
    ensures e.mem[..] == Saved(old(e.mem[..]), slot, prog[..])
    ensures e.writes == old(e.writes) + DiffCount(Stored(old(e.mem[..]), slot), prog[..])
  {
    ghost var before := e.mem[..];
    var addr := SlotAddr(slot);
    var i := 0;
    while i < RecordSize
      invariant 0 <= i <= RecordSize
      invariant forall j :: 0 <= j < StorageSize ==>
        e.mem[j] == if addr <= j < addr + i then prog[j - addr] else before[j]
      invariant e.writes == old(e.writes) + DiffCount(before[addr..addr + i], prog[..i])
    {
      var t := e.mem[addr + i];
      assert before[addr..addr + i + 1][..i] == before[addr..addr + i];
      assert prog[..i + 1][..i] == prog[..i];
      if t != prog[i] {
        e.Write(addr + i, prog[i]);
      }
      i := i + 1;
    }
    assert prog[..i] == prog[..];
  }
}
