/** Bytes, and reading a NUL-terminated text through a cursor. */
module Bytes {

  type Byte = b: int | 0 <= b < 256

  const NUL: Byte := 0x00
  const QUOTE: Byte := 0x22
  const BACKSLASH: Byte := 0x5C
  const COMMA: Byte := 0x2C
  const COLON: Byte := 0x3A
  const MINUS: Byte := 0x2D
  const PLUS: Byte := 0x2B
  const DOT: Byte := 0x2E
  const LBRACKET: Byte := 0x5B
  const RBRACKET: Byte := 0x5D
  const LBRACE: Byte := 0x7B
  const RBRACE: Byte := 0x7D
  const SPACE: Byte := 0x20
  const TAB: Byte := 0x09
  const NEWLINE: Byte := 0x0A
  const ZERO: Byte := 0x30
  const LOWER_U: Byte := 0x75

  /** What `*p` reads when `p` is `i` bytes into the text `s`: past the end there is only the NUL. */
  function At(s: seq<Byte>, i: nat): Byte {
    if i < |s| then s[i] else NUL
  }

  /** The text `t` stands at cursor `i` of `s`. */
  ghost predicate Has(s: seq<Byte>, i: nat, t: seq<Byte>)
    decreases t
  {
    if t == [] then i <= |s| else i < |s| && s[i] == t[0] && Has(s, i + 1, t[1..])
  }

  lemma {:induction false} HasAt(s: seq<Byte>, i: nat, t: seq<Byte>)
    requires Has(s, i, t)
    ensures i + |t| <= |s|
    ensures forall k {:trigger t[k]} | 0 <= k < |t| :: s[i + k] == t[k]
    decreases t
  {
    if t != [] {
      HasAt(s, i + 1, t[1..]);
      forall k | 0 <= k < |t|
        ensures s[i + k] == t[k]
      {
        if k > 0 {
          assert t[k] == t[1..][k - 1];
        }
      }
    }
  }

  lemma {:induction false} HasSlice(s: seq<Byte>, i: nat, t: seq<Byte>)
    requires i + |t| <= |s| && s[i..i + |t|] == t
    ensures Has(s, i, t)
    decreases t
  {
    if t != [] {
      assert s[i] == t[0] && s[i + 1..i + |t|] == t[1..];
      HasSlice(s, i + 1, t[1..]);
    }
  }

  lemma {:induction false} HasSplit(s: seq<Byte>, i: nat, a: seq<Byte>, b: seq<Byte>)
    requires Has(s, i, a + b)
    ensures Has(s, i, a) && Has(s, i + |a|, b)
    ensures i + |a| + |b| <= |s|
    decreases a
  {
    if a == [] {
      assert a + b == b;
      HasAt(s, i, b);
    } else {
      assert (a + b)[1..] == a[1..] + b;
      HasSplit(s, i + 1, a[1..], b);
    }
  }

  lemma {:induction false} HasJoin(s: seq<Byte>, i: nat, a: seq<Byte>, b: seq<Byte>)
    requires Has(s, i, a) && Has(s, i + |a|, b)
    ensures Has(s, i, a + b)
    decreases a
  {
    if a == [] {
      assert a + b == b;
    } else {
      assert (a + b)[1..] == a[1..] + b;
      HasJoin(s, i + 1, a[1..], b);
    }
  }

  /** The same for a text of six parts. */
  lemma {:induction false} HasParts(
      s: seq<Byte>, i: nat, a: seq<Byte>, b: seq<Byte>, c: seq<Byte>, d: seq<Byte>, e: seq<Byte>, f: seq<Byte>)
    requires Has(s, i, a + b + c + d + e + f)
    ensures Has(s, i, a) && Has(s, i + |a|, b) && Has(s, i + |a| + |b|, c) && Has(s, i + |a| + |b| + |c|, d)
    ensures Has(s, i + |a| + |b| + |c| + |d|, e) && Has(s, i + |a| + |b| + |c| + |d| + |e|, f)
    ensures i + |a| + |b| + |c| + |d| + |e| + |f| <= |s|
  {
    HasSplit(s, i, a + b + c + d + e, f);
    HasSplit(s, i, a + b + c + d, e);
    HasSplit(s, i, a + b + c, d);
    HasSplit(s, i, a + b, c);
    HasSplit(s, i, a, b);
  }

  /** The first byte of a non-empty text that stands at `i`. */
  lemma {:induction false} HasFirst(s: seq<Byte>, i: nat, t: seq<Byte>)
    requires t != [] && Has(s, i, t)
    ensures At(s, i) == t[0] && Has(s, i + 1, t[1..]) && i + |t| <= |s|
  {
    HasAt(s, i, t);
  }

  predicate IsDigit(b: Byte) {
    0x30 <= b <= 0x39
  }

  predicate IsHexDigit(b: Byte) {
    0x30 <= b <= 0x39 || 0x61 <= b <= 0x66 || 0x41 <= b <= 0x46
  }

  function HexValue(b: Byte): (v: nat)
    requires IsHexDigit(b)
    ensures v < 16
  {
    if b <= 0x39 then b - 0x30 else if b >= 0x61 then b - 0x57 else b - 0x37
  }

  function LowerHex(v: nat): (b: Byte)
    requires v < 16
    ensures IsHexDigit(b) && HexValue(b) == v
  {
    if v < 10 then 0x30 + v else 0x57 + v
  }
}
