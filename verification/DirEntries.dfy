/** The 32-byte directory entry of fat.h and the slots of a directory. */
module DirEntries {
  import opened CText

  const NAME_SIZE: nat := 11
  const ENTRY_SIZE: nat := 32
  const ATTR_DIRECTORY: nat := 0x10

  /** `FAT16_DirEntry`. `stamps` holds the 14 bytes no operation looks into. */
  datatype DirEntry = DirEntry(name: seq<Byte>, attr: nat, stamps: seq<Byte>, start: nat, size: nat) {
    predicate Valid() {
      && |name| == NAME_SIZE
      && attr < 0x100
      && |stamps| == 14
      && start < 0x10000
      && size < 0x1_0000_0000
    }

    /** The name as a C string of at most 11 characters. */
    function Name(): seq<Byte> { CStr(name) }

    /** `attr & FAT_ATTR_DIRECTORY`. */
    predicate IsDir() { attr / ATTR_DIRECTORY % 2 == 1 }

    predicate Empty() { Name() == [] }
  }

  const NO_ENTRY := DirEntry(Zeros(NAME_SIZE), 0, Zeros(14), 0, 0)

  /** The memory image of an entry. */
  function Encode(e: DirEntry): (b: seq<Byte>)
    requires e.Valid()
    ensures |b| == ENTRY_SIZE
  {
    e.name + [e.attr as char] + e.stamps + WordBytes(e.start) + DwordBytes(e.size)
  }

  function Decode(b: seq<Byte>): (e: DirEntry)
    requires |b| == ENTRY_SIZE
    ensures e.Valid()
  {
    DirEntry(b[..11], b[11] as int, b[12..26], Word(b, 26), Dword(b, 28))
  }

  lemma {:induction false} DecodeEncode(e: DirEntry)
    requires e.Valid()
    ensures Decode(Encode(e)) == e
  {
    var b := Encode(e);
    assert b[..11] == e.name;
    assert b[11] == e.attr as char;
    assert b[12..26] == e.stamps;
    assert b[26..28] == WordBytes(e.start);
    assert b[28..32] == DwordBytes(e.size);
    WordRoundTrip(e.start);
    DwordRoundTrip(e.size);
    assert Word(b, 26) == Word(b[26..28], 0);
    assert Dword(b, 28) == Dword(b[28..32], 0);
  }

  /** Every 32-byte record is the image of exactly one entry: nothing is lost by viewing bytes as entries. */
  lemma {:induction false} EncodeDecode(b: seq<Byte>)
    requires |b| == ENTRY_SIZE
    ensures Encode(Decode(b)) == b
  {
    WordBytesRoundTrip(b, 26);
    DwordBytesRoundTrip(b, 28);
    assert b == b[..11] + [b[11]] + b[12..26] + b[26..28] + b[28..32];
  }

  /** Which bytes of a record hold which field, numbers with the low byte first. */
  lemma {:induction false} FieldBytes(b: seq<Byte>)
    requires |b| == 32
    ensures Encode(Decode(b)) == b && Decode(b).name == b[0..11] && Decode(b).attr == b[11] as int
    ensures Decode(b).stamps == b[12..26] && Decode(b).start == b[26] as int + 0x100 * (b[27] as int)
    ensures Decode(b).size
         == b[28] as int + 0x100 * (b[29] as int) + 0x1_0000 * (b[30] as int) + 0x100_0000 * (b[31] as int)
  {
    EncodeDecode(b);
  }

  /** Slot `k` of the directory whose bytes are `content`. */
  function Slot(content: seq<Byte>, k: nat): (e: DirEntry)
    requires ENTRY_SIZE * (k + 1) <= |content|
    ensures e.Valid()
  {
    Decode(content[ENTRY_SIZE * k..ENTRY_SIZE * (k + 1)])
  }

  function Slots(content: seq<Byte>): (s: seq<DirEntry>)
    ensures |s| == |content| / ENTRY_SIZE
    ensures forall k :: 0 <= k < |s| ==> s[k] == Slot(content, k)
  {
    seq(|content| / ENTRY_SIZE, k requires 0 <= k < |content| / ENTRY_SIZE => Slot(content, k))
  }

  /** Copying one entry over slot `k` changes that slot and no other. */
  lemma {:induction false} SlotsSplice(content: seq<Byte>, k: nat, e: DirEntry)
    requires e.Valid() && ENTRY_SIZE * (k + 1) <= |content|
    ensures Slots(Splice(content, ENTRY_SIZE * k, Encode(e))) == Slots(content)[k := e]
  {
    var c := Splice(content, ENTRY_SIZE * k, Encode(e));
    DecodeEncode(e);
    assert c[ENTRY_SIZE * k..ENTRY_SIZE * (k + 1)] == Encode(e);
    forall j | 0 <= j < |Slots(c)| && j != k
      ensures Slot(c, j) == Slot(content, j)
    {
      assert c[ENTRY_SIZE * j..ENTRY_SIZE * (j + 1)] == content[ENTRY_SIZE * j..ENTRY_SIZE * (j + 1)];
    }
  }

  lemma {:induction false} SlotsAppend(a: seq<Byte>, b: seq<Byte>)
    requires |a| % ENTRY_SIZE == 0
    ensures Slots(a + b) == Slots(a) + Slots(b)
  {
    var n := |a| / ENTRY_SIZE;
    forall k | 0 <= k < |Slots(a + b)|
      ensures Slot(a + b, k) == if k < n then Slot(a, k) else Slot(b, k - n)
    {
      if k < n {
        assert (a + b)[ENTRY_SIZE * k..ENTRY_SIZE * (k + 1)] == a[ENTRY_SIZE * k..ENTRY_SIZE * (k + 1)];
      } else {
        assert (a + b)[ENTRY_SIZE * k..ENTRY_SIZE * (k + 1)]
            == b[ENTRY_SIZE * (k - n)..ENTRY_SIZE * (k - n + 1)];
      }
    }
  }

  lemma {:induction false} SlotsZeros(n: nat)
    ensures Slots(Zeros(n)) == seq(n / ENTRY_SIZE, _ => NO_ENTRY)
  {
    forall k | 0 <= k < n / ENTRY_SIZE
      ensures Slot(Zeros(n), k) == NO_ENTRY
    {
      assert Zeros(n)[ENTRY_SIZE * k..ENTRY_SIZE * (k + 1)] == Zeros(ENTRY_SIZE);
      assert Zeros(32)[..11] == Zeros(11) && Zeros(32)[12..26] == Zeros(14);
    }
  }

  /** All 32 bytes zero, as `memset(&dir[i], 0, sizeof(FAT16_DirEntry))` leaves them. */
  lemma {:induction false} EncodeNoEntry()
    ensures NO_ENTRY.Valid() && Encode(NO_ENTRY) == Zeros(ENTRY_SIZE)
  {
  }
}
