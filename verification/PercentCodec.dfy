/** The bounded percent encoder of the web pages and the in-place decoder of the parameter parser. */
module PercentCodec {
  import opened Words

  const PERCENT: byte := 0x25
  const PLUS: byte := 0x2B
  const SPACE: byte := 0x20

  predicate IsUpper(c: byte) { 0x41 <= c <= 0x5A }
  predicate IsLower(c: byte) { 0x61 <= c <= 0x7A }
  predicate IsDigit(c: byte) { 0x30 <= c <= 0x39 }

  /** RFC 3986 section 2.3: letters, digits, '-', '_', '.', '~'. */
  predicate Unreserved(c: byte)
  {
    IsUpper(c) || IsLower(c) || IsDigit(c) || c == 0x2D || c == 0x5F || c == 0x2E || c == 0x7E
  }

  predicate IsHex(c: byte) { IsDigit(c) || 0x41 <= c <= 0x46 || 0x61 <= c <= 0x66 }

  function HexDigit(v: nat): byte
    requires v < 16
  {
    if v < 10 then 0x30 + v else 0x41 + (v - 10)
  }

  function HexValue(c: byte): (v: nat)
    requires IsHex(c)
    ensures v < 16
  {
    if IsDigit(c) then c - 0x30 else if IsUpper(c) then c - 0x41 + 10 else c - 0x61 + 10
  }

  /** One source byte, encoded. */
  function EncodeByte(c: byte): (e: seq<byte>)
    ensures |e| == if Unreserved(c) then 1 else 3
  {
    if Unreserved(c) then [c] else [PERCENT, HexDigit(c / 16), HexDigit(c % 16)]
  }

  /** Everything, with room to spare. */
  function EncodeAll(s: seq<byte>): seq<byte>
  {
    if s == [] then [] else EncodeAll(s[..|s| - 1]) + EncodeByte(s[|s| - 1])
  }

  /** The decoder on values: an escape needs two hex digits, '+' is a blank, all else stands for itself. */
  function Decode(s: seq<byte>): (d: seq<byte>)
    ensures |d| <= |s|
  {
    if s == [] then []
    else if s[0] == PERCENT && |s| >= 3 && IsHex(s[1]) && IsHex(s[2]) then
      [16 * HexValue(s[1]) + HexValue(s[2])] + Decode(s[3..])
    else if s[0] == PLUS then [SPACE] + Decode(s[1..])
    else [s[0]] + Decode(s[1..])
  }

  predicate IsCString(buf: seq<byte>, length: nat)
  {
    length < |buf| && buf[length] == 0 && forall i :: 0 <= i < length ==> buf[i] != 0
  }

  /** `url_encode`: `src` is NUL-terminated after `length` bytes. */
  method UrlEncode(src: array<byte>, ghost length: nat, dst: array<byte>) returns (i: nat, ghost taken: nat)
    requires src != dst && IsCString(src[..], length) && dst.Length >= 1
    modifies dst
    ensures i < dst.Length && dst[i] == 0 && dst[i + 1..] == old(dst[i + 1..])
    ensures taken <= length && dst[..i] == EncodeAll(src[..taken])
    ensures LongestFit(src[..length], dst.Length, taken)
  {
    hide EncodeAll, Unreserved, HexDigit;
    EncodeNothing();
    ghost var was := dst[..];
    i := 0;
    var p := 0;
    while src[p] != 0 && i < dst.Length - 1
      invariant p <= length && i < dst.Length
      invariant dst[..i] == EncodeAll(src[..p])
      invariant forall j :: i <= j < dst.Length ==> dst[j] == was[j]
      decreases length - p
    {
      EncodeOneMore(src[..], p);
      var c := src[p];
      if Unreserved(c) {
        dst[i] := c;
        i := i + 1;
      } else if i + 3 < dst.Length {
        dst[i], dst[i + 1], dst[i + 2] := PERCENT, HexDigit(c / 16), HexDigit(c % 16);
        i := i + 3;
      } else {
        break;
      }
      p := p + 1;
    }
    taken := p;
    if p < length {
      EncodeOneMore(src[..], p);
      assert src[..length][..p + 1] == src[..p + 1];
    }
    assert src[..length][..p] == src[..p];
    dst[i] := 0;
  }

  lemma EncodeNothing()
    ensures EncodeAll([]) == []
  {
  }

  lemma EncodeOneMore(s: seq<byte>, p: nat)
    requires p < |s|
    ensures EncodeAll(s[..p + 1]) == EncodeAll(s[..p]) + EncodeByte(s[p])
  {
    assert s[..p + 1][..p] == s[..p];
  }

  /** `taken` source bytes fit with their terminator in `size` bytes, and no more of them do. */
  predicate LongestFit(src: seq<byte>, size: nat, taken: nat)
  {
    && taken <= |src| && |EncodeAll(src[..taken])| < size
    && (taken < |src| ==> |EncodeAll(src[..taken + 1])| >= size)
  }

  lemma {:induction false} EncodeGrows(s: seq<byte>, i: nat, j: nat)
    requires i <= j <= |s|
    ensures |EncodeAll(s[..i])| <= |EncodeAll(s[..j])| && |EncodeAll(s[..j])| <= 3 * j
    decreases j
  {
    if j == 0 {
    } else if i < j {
      assert s[..j][..j - 1] == s[..j - 1];
      EncodeGrows(s, i, j - 1);
    } else {
      assert s[..j][..j - 1] == s[..j - 1];
      EncodeGrows(s, i - 1, j - 1);
    }
  }

  /** The whole source is encoded exactly when it fits, in particular into more than three times its length. */
  lemma WholeSourceIff(src: seq<byte>, size: nat, taken: nat)
    requires LongestFit(src, size, taken)
    ensures taken == |src| <==> |EncodeAll(src)| < size
    ensures size > 3 * |src| ==> taken == |src|
    ensures forall k :: 0 <= k <= |src| && |EncodeAll(src[..k])| < size ==> k <= taken
  {
    assert src[..|src|] == src;
    EncodeGrows(src, taken, |src|);
    forall k | 0 <= k <= |src| && |EncodeAll(src[..k])| < size
      ensures k <= taken
    {
      if k > taken { EncodeGrows(src, taken + 1, k); }
    }
    if taken < |src| { EncodeGrows(src, taken + 1, |src|); }
  }

  lemma HexRoundTrip(c: byte)
    ensures IsHex(HexDigit(c / 16)) && IsHex(HexDigit(c % 16))
    ensures 16 * HexValue(HexDigit(c / 16)) + HexValue(HexDigit(c % 16)) == c
  {
  }

  /** Decoding undoes the encoding of one byte, whatever follows. */
  lemma DecodeByte(c: byte, rest: seq<byte>)
    ensures Decode(EncodeByte(c) + rest) == [c] + Decode(rest)
  {
    HexRoundTrip(c);
    var s := EncodeByte(c) + rest;
    if Unreserved(c) {
      assert s[1..] == rest;
    } else {
      assert s[3..] == rest;
    }
  }

  lemma SplitLastByte(s: seq<byte>)
    ensures s != [] ==> s == s[..|s| - 1] + [s[|s| - 1]]
  {
  }

  lemma {:induction false} DecodeEncoded(s: seq<byte>, rest: seq<byte>)
    ensures Decode(EncodeAll(s) + rest) == s + Decode(rest)
  {
    hide Decode, EncodeByte;
    SplitLastByte(s);
    if s == [] {
      assert EncodeAll(s) + rest == rest;
    } else {
      var front, c := s[..|s| - 1], s[|s| - 1];
      assert EncodeAll(s) + rest == EncodeAll(front) + (EncodeByte(c) + rest);
      DecodeEncoded(front, EncodeByte(c) + rest);
      DecodeByte(c, rest);
    }
  }

  /** Whatever the encoder leaves in its buffer decodes to a prefix of the source: the longest whose encoding fits. */
  lemma EncodeDecodeRoundTrip(src: seq<byte>, size: nat, taken: nat)
    requires LongestFit(src, size, taken)
    ensures Decode(EncodeAll(src[..taken])) == src[..taken] <= src
    ensures |EncodeAll(src)| < size <==> Decode(EncodeAll(src[..taken])) == src
  {
    DecodeEncoded(src[..taken], []);
    assert EncodeAll(src[..taken]) + [] == EncodeAll(src[..taken]);
    WholeSourceIff(src, size, taken);
  }

  /** An encoded string has no NUL, so it is again a C string. */
  lemma {:induction false} EncodedIsText(s: seq<byte>)
    ensures 0 !in EncodeAll(s)
  {
    if s != [] { EncodedIsText(s[..|s| - 1]); }
  }

  /** `preprocess_string`: the decoder on one buffer, writing behind its own read position. */
  method DecodeInPlace(str: array<byte>, ghost length: nat) returns (q: nat)
    requires IsCString(str[..], length)
    modifies str
    ensures q <= length && str[..q] == Decode(old(str[..length])) && str[q] == 0
    ensures forall i :: length <= i < str.Length && i != q ==> str[i] == old(str[i])
  {
    hide Decode;
    var p := 0;
    q := 0;
    ghost var s, all := str[..length], str[..];
    assert s[0..] == s;
    while str[p] != 0
      invariant q <= p <= length
      invariant str[..q] + Decode(s[p..]) == Decode(s)
      invariant str[p..] == all[p..]
      decreases length - p
    {
      ghost var done := str[..q];
      var b, n := ReadOne(str, p, s);
      p := p + n;
      str[q] := b;
      q := q + 1;
      assert str[..q] == done + [b];
      Regroup(done, b, Decode(s[p..]));
    }
    assert str[p] == all[p..][0];
    DecodeNothing(s[p..]);
    str[q] := 0;
  }

  lemma Regroup(done: seq<byte>, b: byte, rest: seq<byte>)
    ensures done + ([b] + rest) == (done + [b]) + rest
  {
  }

  lemma DecodeNothing(s: seq<byte>)
    requires s == []
    ensures Decode(s) == []
  {
  }

  /** The next decoded byte and how many bytes it took. */
  method ReadOne(str: array<byte>, p: nat, ghost s: seq<byte>) returns (b: byte, n: nat)
    requires p < |s| < str.Length && str[p..|s|] == s[p..] && str[|s|] == 0 && 0 !in s
    ensures 1 <= n <= |s| - p && Decode(s[p..]) == [b] + Decode(s[p + n..])
  {
    ghost var t := s[p..];
    assert forall i :: p <= i < |s| ==> str[i] == t[i - p] == s[i];
    if str[p] == PERCENT && str[p + 1] != 0 && str[p + 2] != 0 && IsHex(str[p + 1]) && IsHex(str[p + 2]) {
      assert t[3..] == s[p + 3..];
      var high := 16 * HexValue(str[p + 1]);
      b, n := high + HexValue(str[p + 2]), 3;
    } else {
      assert t[1..] == s[p + 1..];
      b, n := if str[p] == PLUS then SPACE else str[p], 1;
    }
  }

  /** Letters, digits and "-_.~" stand for themselves; every other byte is '%' and two upper-case hex digits. */
  lemma EncodeByteIs(c: byte)
    ensures var e := EncodeByte(c);
      if 48 <= c <= 57 || 65 <= c <= 90 || 97 <= c <= 122 || c == 45 || c == 46 || c == 95 || c == 126 then e == [c]
      else e == [37, HexText(c / 16, true), HexText(c % 16, true)]
  {
  }

  /** A hex digit, upper-case or lower-case. */
  function HexText(v: nat, upper: bool): byte
    requires v < 16
  {
    if v < 10 then 48 + v else if upper then 55 + v else 87 + v
  }

  /** What a client may send: bytes that stand for themselves, '+' for a blank, and escapes in either case. */
  datatype Piece = Plain(c: byte) | Blank | Escape(c: byte, upper: bool, upper': bool)

  predicate WellFormed(pieces: seq<Piece>)
  {
    forall i :: 0 <= i < |pieces| && pieces[i].Plain? ==> pieces[i].c != 37 && pieces[i].c != 43
  }

  function Sent(p: Piece): seq<byte>
  {
    match p
    case Plain(c) => [c]
    case Blank => [43]
    case Escape(c, u, u') => [37, HexText(c / 16, u), HexText(c % 16, u')]
  }

  function AllSent(pieces: seq<Piece>): seq<byte>
  {
    if pieces == [] then [] else Sent(pieces[0]) + AllSent(pieces[1..])
  }

  function Meant(pieces: seq<Piece>): seq<byte>
  {
    if pieces == [] then [] else [if pieces[0].Blank? then 32 else pieces[0].c] + Meant(pieces[1..])
  }

  lemma HexTextValue(v: nat, upper: bool)
    requires v < 16
    ensures IsHex(HexText(v, upper)) && HexValue(HexText(v, upper)) == v
  {
  }

  lemma DecodeOnePiece(p: Piece, rest: seq<byte>)
    requires WellFormed([p])
    ensures Decode(Sent(p) + rest) == [if p.Blank? then 32 else p.c] + Decode(rest)
  {
    assert [p][0] == p;
    var s := Sent(p) + rest;
    match p {
      case Escape(c, u, u') =>
        HexTextValue(c / 16, u);
        HexTextValue(c % 16, u');
        assert s[3..] == rest;
      case _ =>
        assert s[1..] == rest;
    }
  }

  /** The decoder reads pieces one by one, in any mixture. */
  lemma {:induction false} DecodePieces(pieces: seq<Piece>, rest: seq<byte>)
    requires WellFormed(pieces)
    ensures Decode(AllSent(pieces) + rest) == Meant(pieces) + Decode(rest)
    decreases |pieces|
  {
    hide Decode, Sent;
    if pieces == [] {
      assert AllSent(pieces) + rest == rest && Meant(pieces) + Decode(rest) == Decode(rest);
    } else {
      assert AllSent(pieces) + rest == Sent(pieces[0]) + (AllSent(pieces[1..]) + rest);
      assert [pieces[0]][0] == pieces[0];
      DecodeOnePiece(pieces[0], AllSent(pieces[1..]) + rest);
      DecodePieces(pieces[1..], rest);
    }
  }

  /** A '%' without two hex digits behind it stands for itself. */
  lemma LonePercent(rest: seq<byte>)
    requires |rest| < 2 || !HexDigitText(rest[0]) || !HexDigitText(rest[1])
    ensures Decode([37] + rest) == [37] + Decode(rest)
  {
    assert ([37] + rest)[1..] == rest;
  }

  predicate HexDigitText(c: byte) { 48 <= c <= 57 || 65 <= c <= 70 || 97 <= c <= 102 }
}
