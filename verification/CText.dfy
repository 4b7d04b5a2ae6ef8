/** Bytes and C strings, as the kernel's C code sees them. */
module CText {

  /** A C `char`: one byte. */
  type Byte = c: char | c as int < 256 witness '\0'

  const NUL: Byte := '\0'

  function Zeros(n: nat): (z: seq<Byte>)
    ensures |z| == n
    ensures forall i :: 0 <= i < n ==> z[i] == NUL
  {
    seq(n, _ => NUL)
  }

  /** `memcpy(s + at, b, |b|)`: the buffer `s` after `b` is copied over it. */
  function Splice(s: seq<Byte>, at: nat, b: seq<Byte>): (r: seq<Byte>)
    requires at + |b| <= |s|
    ensures |r| == |s|
  {
    s[..at] + b + s[at + |b|..]
  }

  lemma {:induction false} SpliceTwice(s: seq<Byte>, at: nat, b: seq<Byte>, c: seq<Byte>)
    requires at + |b| + |c| <= |s|
    ensures Splice(Splice(s, at, b), at + |b|, c) == Splice(s, at, b + c)
  {
  }

  /** The index of the first NUL at or behind `i`, or |s|. */
  function NulAt(s: seq<Byte>, i: nat): (n: nat)
    requires i <= |s|
    ensures i <= n <= |s|
    decreases |s| - i
  {
    if i == |s| || s[i] == NUL then i else NulAt(s, i + 1)
  }

  /** The C string stored in `s`: everything before the first NUL. */
  function CStr(s: seq<Byte>): (r: seq<Byte>)
    ensures |r| <= |s|
  {
    s[..NulAt(s, 0)]
  }

  /** A zeroed field of `n` bytes into which `strncpy` has put `s`. */
  function Padded(s: seq<Byte>, n: nat): (r: seq<Byte>)
    requires |s| <= n
    ensures |r| == n
  {
    s + Zeros(n - |s|)
  }

  lemma {:induction false} NulAtIs(s: seq<Byte>, i: nat, n: nat)
    requires i <= n <= |s|
    requires forall j :: i <= j < n ==> s[j] != NUL
    requires n < |s| ==> s[n] == NUL
    ensures NulAt(s, i) == n
    decreases n - i
  {
    if i < n {
      NulAtIs(s, i + 1, n);
    }
  }

  lemma {:induction false} CStrPadded(s: seq<Byte>, n: nat)
    requires |s| <= n && NUL !in s
    ensures CStr(Padded(s, n)) == s
  {
    NulAtIs(Padded(s, n), 0, |s|);
  }

  /** Little-endian 16-bit word at byte `at`. */
  function Word(s: seq<Byte>, at: nat): (w: nat)
    requires at + 2 <= |s|
    ensures w < 0x10000
  {
    s[at] as int + 0x100 * (s[at + 1] as int)
  }

  function WordBytes(w: nat): (b: seq<Byte>)
    requires w < 0x10000
    ensures |b| == 2
  {
    [(w % 0x100) as char, (w / 0x100) as char]
  }

  function Dword(s: seq<Byte>, at: nat): (w: nat)
    requires at + 4 <= |s|
    ensures w < 0x1_0000_0000
  {
    Word(s, at) + 0x10000 * Word(s, at + 2)
  }

  function DwordBytes(w: nat): (b: seq<Byte>)
    requires w < 0x1_0000_0000
    ensures |b| == 4
  {
    WordBytes(w % 0x10000) + WordBytes(w / 0x10000)
  }

  lemma {:induction false} WordRoundTrip(w: nat)
    requires w < 0x10000
    ensures Word(WordBytes(w), 0) == w
  {
  }

  lemma {:induction false} WordBytesRoundTrip(s: seq<Byte>, at: nat)
    requires at + 2 <= |s|
    ensures WordBytes(Word(s, at)) == s[at..at + 2]
  {
    var w := Word(s, at);
    assert w % 0x100 == s[at] as int;
    assert w / 0x100 == s[at + 1] as int;
  }

  lemma {:induction false} DwordRoundTrip(w: nat)
    requires w < 0x1_0000_0000
    ensures Dword(DwordBytes(w), 0) == w
  {
    var b := DwordBytes(w);
    assert b[..2] == WordBytes(w % 0x10000);
    assert b[2..] == WordBytes(w / 0x10000);
  }

  lemma {:induction false} DwordBytesRoundTrip(s: seq<Byte>, at: nat)
    requires at + 4 <= |s|
    ensures DwordBytes(Dword(s, at)) == s[at..at + 4]
  {
    WordBytesRoundTrip(s, at);
    WordBytesRoundTrip(s, at + 2);
    var w := Dword(s, at);
    assert w % 0x10000 == Word(s, at);
    assert w / 0x10000 == Word(s, at + 2);
    assert s[at..at + 4] == s[at..at + 2] + s[at + 2..at + 4];
  }

  // --- blocks ------------------------------------------------------------------------------

  /** The offset of block `i` when blocks of `m` bytes follow one another. */
  function Start(i: nat, m: nat): nat {
    if i == 0 then 0 else Start(i - 1, m) + m
  }

  lemma {:induction false} StartIsProduct(i: nat, m: nat)
    ensures Start(i, m) == i * m
  {
    if i > 0 {
      StartIsProduct(i - 1, m);
      assert i * m == (i - 1) * m + m;
    }
  }

  lemma {:induction false} StartMonotone(i: nat, j: nat, m: nat)
    requires i < j
    ensures Start(i, m) + m <= Start(j, m)
  {
    if i < j - 1 {
      StartMonotone(i, j - 1, m);
    }
  }

  /** Division finds the block a byte lies in. */
  lemma {:induction false} StartOf(x: nat, m: nat)
    requires m > 0
    ensures Start(x / m, m) + x % m == x
  {
    StartIsProduct(x / m, m);
    assert x == m * (x / m) + x % m;
  }
}
