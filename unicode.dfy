/**
 * UTF-8, as Rust's `str` stores it.
 *
 * A Rust `String` is modelled as `seq<char>` (a Dafny 4 `char` is a Unicode
 * scalar value); its bytes are `Utf8(s)`, so `s.len()` is `|Utf8(s)|` and
 * `c.len_utf8()` is `Utf8Len(c)`. `String::from_utf8` is `DecodeUtf8`, and
 * slicing a `str` at a byte index (`&s[..n]`) is `ByteSlice`.
 */
module Unicode {
  import opened Wrappers

  type byte = x: int | 0 <= x < 256

  /** Number of bytes of the UTF-8 form of `c` (Rust's `char::len_utf8`). */
  function Utf8Len(c: char): (n: nat)
    ensures 1 <= n <= 4
  {
    if c as int < 0x80 then 1
    else if c as int < 0x800 then 2
    else if c as int < 0x1_0000 then 3
    else 4
  }

  /** The UTF-8 form of one scalar value. */
  function EncodeChar(c: char): (bs: seq<byte>)
    ensures |bs| == Utf8Len(c)
  {
    var cp := c as int;
    if cp < 0x80 then [cp]
    else if cp < 0x800 then [0xC0 + cp / 64, 0x80 + cp % 64]
    else if cp < 0x1_0000 then [0xE0 + cp / 4096, 0x80 + (cp / 64) % 64, 0x80 + cp % 64]
    else [0xF0 + cp / 262144, 0x80 + (cp / 4096) % 64, 0x80 + (cp / 64) % 64, 0x80 + cp % 64]
  }

  /** The bytes of a string (`s.as_bytes()`). */
  function Utf8(s: seq<char>): seq<byte>
  {
    if s == [] then [] else EncodeChar(s[0]) + Utf8(s[1..])
  }

  /** Byte length of a string: the sum of the lengths of its scalars. */
  function ByteLen(s: seq<char>): (n: nat)
  {
    if s == [] then 0 else Utf8Len(s[0]) + ByteLen(s[1..])
  }

  lemma {:induction false} Utf8Length(s: seq<char>)
    ensures |Utf8(s)| == ByteLen(s)
    ensures |s| <= |Utf8(s)| <= 4 * |s|
  {
    if s != [] {
      Utf8Length(s[1..]);
    }
  }

  /** Encoding distributes over concatenation. */
  lemma {:induction false} Utf8Concat(a: seq<char>, b: seq<char>)
    ensures Utf8(a + b) == Utf8(a) + Utf8(b)
  {
    if a == [] {
      assert a + b == b;
    } else {
      assert (a + b)[0] == a[0];
      assert (a + b)[1..] == a[1..] + b;
      Utf8Concat(a[1..], b);
    }
  }

  /** Byte length is additive over concatenation. */
  lemma ByteLenConcat(a: seq<char>, b: seq<char>)
    ensures ByteLen(a + b) == ByteLen(a) + ByteLen(b)
  {
    Utf8Length(a + b);
    Utf8Length(a);
    Utf8Length(b);
    Utf8Concat(a, b);
  }

  /** The bytes of a prefix of `s` are a prefix of the bytes of `s`, and
      the rest of the bytes encode the rest of `s`: cutting the bytes at the
      byte length of `s[..k]` never splits a scalar. */
  lemma Utf8Split(s: seq<char>, k: nat)
    requires k <= |s|
    ensures |Utf8(s[..k])| <= |Utf8(s)|
    ensures Utf8(s)[..|Utf8(s[..k])|] == Utf8(s[..k])
    ensures Utf8(s)[|Utf8(s[..k])|..] == Utf8(s[k..])
  {
    assert s == s[..k] + s[k..];
    Utf8Concat(s[..k], s[k..]);
  }

  /** Appending one scalar adds its length. */
  lemma Utf8Snoc(s: seq<char>, c: char)
    ensures |Utf8(s + [c])| == |Utf8(s)| + Utf8Len(c)
  {
    Utf8Concat(s, [c]);
    assert [c][1..] == [];
  }

  // ---------------------------------------------------------------------
  // Decoding (String::from_utf8)
  // ---------------------------------------------------------------------

  predicate IsCont(b: byte)
  {
    0x80 <= b < 0xC0
  }

  /** Length of the sequence a lead byte announces; 0 for a byte that cannot
      start a scalar. */
  function LeadLen(b: byte): nat
  {
    if b < 0x80 then 1
    else if b < 0xC0 then 0
    else if b < 0xE0 then 2
    else if b < 0xF0 then 3
    else if b < 0xF8 then 4
    else 0
  }

  /** Decodes exactly one scalar from 1 to 4 bytes, refusing overlong forms,
      surrogates and values above U+10FFFF. */
  function DecodeChar(bs: seq<byte>): Option<char>
  {
    if |bs| == 1 && bs[0] < 0x80 then
      Some(bs[0] as char)
    else if |bs| == 2 && 0xC0 <= bs[0] < 0xE0 && IsCont(bs[1]) then
      var cp := (bs[0] as int - 0xC0) * 64 + (bs[1] as int - 0x80);
      if cp >= 0x80 then Some(cp as char) else None
    else if |bs| == 3 && 0xE0 <= bs[0] < 0xF0 && IsCont(bs[1]) && IsCont(bs[2]) then
      var cp := (bs[0] as int - 0xE0) * 4096 + (bs[1] as int - 0x80) * 64 + (bs[2] as int - 0x80);
      if cp >= 0x800 && !(0xD800 <= cp < 0xE000) then Some(cp as char) else None
    else if |bs| == 4 && 0xF0 <= bs[0] < 0xF8 && IsCont(bs[1]) && IsCont(bs[2]) && IsCont(bs[3]) then
      var cp := (bs[0] as int - 0xF0) * 262144 + (bs[1] as int - 0x80) * 4096 + (bs[2] as int - 0x80) * 64 + (bs[3] as int - 0x80);
      if 0x1_0000 <= cp < 0x11_0000 then Some(cp as char) else None
    else
      None
  }

  /** `String::from_utf8`: the scalars of a well-formed byte sequence, or None. */
  function DecodeUtf8(bs: seq<byte>): Option<seq<char>>
    decreases |bs|
  {
    if bs == [] then Some([])
    else
      var n := LeadLen(bs[0]);
      if n == 0 || |bs| < n then None
      else match DecodeChar(bs[..n])
        case None => None
        case Some(c) =>
          match DecodeUtf8(bs[n..])
          case None => None
          case Some(rest) => Some([c] + rest)
  }

  // Arithmetic of the 2-, 3- and 4-byte forms, one fact per lemma.

  lemma Split2(cp: int)
    requires 0x80 <= cp < 0x800
    ensures cp == (cp / 64) * 64 + cp % 64
    ensures 2 <= cp / 64 < 32
  {
  }

  lemma Split3(cp: int)
    requires 0x800 <= cp < 0x1_0000
    ensures cp == (cp / 4096) * 4096 + ((cp / 64) % 64) * 64 + cp % 64
    ensures 0 <= cp / 4096 < 16
  {
    assert cp == (cp / 64) * 64 + cp % 64;
    assert cp / 64 == (cp / 4096) * 64 + (cp / 64) % 64;
  }

  lemma Split4(cp: int)
    requires 0x1_0000 <= cp < 0x11_0000
    ensures cp == (cp / 262144) * 262144 + ((cp / 4096) % 64) * 4096 + ((cp / 64) % 64) * 64 + cp % 64
    ensures 0 <= cp / 262144 <= 4
  {
    assert cp == (cp / 64) * 64 + cp % 64;
    assert cp / 64 == (cp / 4096) * 64 + (cp / 64) % 64;
    assert cp / 4096 == (cp / 262144) * 64 + (cp / 4096) % 64;
  }

  lemma Join2(a: int, b: int)
    requires 0 <= b < 64
    ensures (a * 64 + b) / 64 == a && (a * 64 + b) % 64 == b
  {
  }

  lemma Join3(a: int, b: int, c: int)
    requires 0 <= b < 64 && 0 <= c < 64
    ensures (a * 4096 + b * 64 + c) / 4096 == a
    ensures ((a * 4096 + b * 64 + c) / 64) % 64 == b
    ensures (a * 4096 + b * 64 + c) % 64 == c
  {
    var x := a * 4096 + b * 64 + c;
    assert x == (a * 64 + b) * 64 + c;
    Join2(a * 64 + b, c);
    Join2(a, b);
  }

  lemma Join4(a: int, b: int, c: int, d: int)
    requires 0 <= b < 64 && 0 <= c < 64 && 0 <= d < 64
    ensures (a * 262144 + b * 4096 + c * 64 + d) / 262144 == a
    ensures ((a * 262144 + b * 4096 + c * 64 + d) / 4096) % 64 == b
    ensures ((a * 262144 + b * 4096 + c * 64 + d) / 64) % 64 == c
    ensures (a * 262144 + b * 4096 + c * 64 + d) % 64 == d
  {
    var x := a * 262144 + b * 4096 + c * 64 + d;
    assert x == (a * 64 + b) * 4096 + c * 64 + d;
    Join3(a * 64 + b, c, d);
    Join2(a, b);
  }

  lemma DecodeEncodeChar(c: char)
    ensures LeadLen(EncodeChar(c)[0]) == Utf8Len(c)
    ensures DecodeChar(EncodeChar(c)) == Some(c)
  {
    var cp := c as int;
    var e := EncodeChar(c);
    if cp < 0x80 {
    } else if cp < 0x800 {
      Split2(cp);
      assert (e[0] as int - 0xC0) * 64 + (e[1] as int - 0x80) == cp;
    } else if cp < 0x1_0000 {
      Split3(cp);
      assert (e[0] as int - 0xE0) * 4096 + (e[1] as int - 0x80) * 64 + (e[2] as int - 0x80) == cp;
    } else {
      Split4(cp);
      assert (e[0] as int - 0xF0) * 262144 + (e[1] as int - 0x80) * 4096 + (e[2] as int - 0x80) * 64 + (e[3] as int - 0x80) == cp;
    }
  }

  lemma EncodeDecodeChar(bs: seq<byte>, c: char)
    requires DecodeChar(bs) == Some(c)
    ensures EncodeChar(c) == bs && LeadLen(bs[0]) == |bs|
  {
    if |bs| == 2 {
      Join2(bs[0] as int - 0xC0, bs[1] as int - 0x80);
    } else if |bs| == 3 {
      Join3(bs[0] as int - 0xE0, bs[1] as int - 0x80, bs[2] as int - 0x80);
    } else if |bs| == 4 {
      Join4(bs[0] as int - 0xF0, bs[1] as int - 0x80, bs[2] as int - 0x80, bs[3] as int - 0x80);
    }
  }

  /** Every string's bytes are accepted by `String::from_utf8` and give the
      string back. */
  lemma {:induction false} DecodeUtf8OfUtf8(s: seq<char>)
    ensures DecodeUtf8(Utf8(s)) == Some(s)
  {
    if s != [] {
      var e := EncodeChar(s[0]);
      var bs := Utf8(s);
      DecodeEncodeChar(s[0]);
      assert bs[0] == e[0];
      assert bs[..|e|] == e;
      assert bs[|e|..] == Utf8(s[1..]);
      DecodeUtf8OfUtf8(s[1..]);
      assert [s[0]] + s[1..] == s;
    }
  }

  /** Whatever `String::from_utf8` accepts is the UTF-8 form of what it
      returns. With DecodeUtf8OfUtf8: `DecodeUtf8(bs) == Some(s)` exactly
      when `bs == Utf8(s)`. */
  lemma {:induction false} Utf8OfDecodeUtf8(bs: seq<byte>, s: seq<char>)
    requires DecodeUtf8(bs) == Some(s)
    ensures Utf8(s) == bs
    decreases |bs|
  {
    if bs != [] {
      var n := DecodeUtf8Cons(bs, s);
      EncodeDecodeChar(bs[..n], s[0]);
      Utf8OfDecodeUtf8(bs[n..], s[1..]);
      Utf8Cons(s);
      assert bs == bs[..n] + bs[n..];
    }
  }

  /** A non-empty decoded string: its first scalar from the first `n`
      bytes, the rest from the others. */
  lemma DecodeUtf8Cons(bs: seq<byte>, s: seq<char>) returns (n: nat)
    requires bs != [] && DecodeUtf8(bs) == Some(s)
    ensures 1 <= n <= |bs| && n < |bs| + 1 && s != []
    ensures DecodeChar(bs[..n]) == Some(s[0]) && DecodeUtf8(bs[n..]) == Some(s[1..])
  {
    n := LeadLen(bs[0]);
    var c := DecodeChar(bs[..n]).value;
    var rest := DecodeUtf8(bs[n..]).value;
    assert s == [c] + rest;
    assert s[0] == c && s[1..] == rest;
  }

  /** The bytes of a non-empty string: its first scalar's, then the rest's. */
  lemma Utf8Cons(s: seq<char>)
    requires s != []
    ensures Utf8(s) == EncodeChar(s[0]) + Utf8(s[1..])
  {
  }

  /** The UTF-8 form determines the string. */
  lemma Utf8Injective(s: seq<char>, t: seq<char>)
    requires Utf8(s) == Utf8(t)
    ensures s == t
  {
    DecodeUtf8OfUtf8(s);
    DecodeUtf8OfUtf8(t);
  }

  // ---------------------------------------------------------------------
  // Byte-index slicing (`&s[..n]`)
  // ---------------------------------------------------------------------

  /** `&s[..n]` for a byte index `n`: the leading scalars whose UTF-8 form is
      exactly `n` bytes long, or None where Rust panics (`n` negative, past
      the end, or inside a multi-byte scalar). */
  function ByteSlice(s: seq<char>, n: int): (r: Option<seq<char>>)
    ensures r.Some? ==> |r.value| <= |s| && r.value == s[..|r.value|] && |Utf8(r.value)| == n
    decreases |s|
  {
    if n == 0 then Some([])
    else if n < 0 || s == [] then None
    else match ByteSlice(s[1..], n - Utf8Len(s[0]))
      case None => None
      case Some(t) =>
        assert [s[0]] + t == s[..1 + |t|];
        assert ([s[0]] + t)[1..] == t;
        Some([s[0]] + t)
  }

  /** Slicing at the byte length of `s[..k]` succeeds and gives `s[..k]`. */
  lemma {:induction false} ByteSliceAtBoundary(s: seq<char>, k: nat)
    requires k <= |s|
    ensures ByteSlice(s, |Utf8(s[..k])|) == Some(s[..k])
  {
    if k > 0 {
      var n := |Utf8(s[..k])|;
      assert s[..k][0] == s[0];
      assert s[..k][1..] == s[1..][..k - 1];
      assert n == Utf8Len(s[0]) + |Utf8(s[1..][..k - 1])|;
      ByteSliceAtBoundary(s[1..], k - 1);
      assert [s[0]] + s[1..][..k - 1] == s[..k];
    }
  }

  /** Slicing succeeds exactly at scalar boundaries. */
  lemma ByteSliceSucceedsIff(s: seq<char>, n: int)
    ensures ByteSlice(s, n).Some? <==> exists k :: 0 <= k <= |s| && |Utf8(s[..k])| == n
  {
    if k :| 0 <= k <= |s| && |Utf8(s[..k])| == n {
      ByteSliceAtBoundary(s, k);
    }
    if ByteSlice(s, n).Some? {
      var t := ByteSlice(s, n).value;
      assert |Utf8(s[..|t|])| == n;
    }
  }
}
