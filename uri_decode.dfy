/**
  The percent-decoding that JavaScript's `decodeURIComponent` performs on a
  request path: `%` followed by two hexadecimal digits is one octet
  (section 2.1 of RFC 3986), octets of 0x80 and above must form one complete
  UTF-8 sequence (section 4 of RFC 3629), and every other character is copied.
  Any malformed escape makes the whole decoding fail (JavaScript throws a
  URIError), which is `None` here.

  A decoded string is a sequence of Unicode scalar values (Dafny `char`).
*/
module UriDecode {
  import opened Wrappers

  predicate IsHexDigit(c: char) {
    ('0' <= c <= '9') || ('a' <= c <= 'f') || ('A' <= c <= 'F')
  }

  function HexValue(c: char): (v: int)
    requires IsHexDigit(c)
    ensures 0 <= v < 16
  {
    if '0' <= c <= '9' then c as int - '0' as int
    else if 'a' <= c <= 'f' then c as int - 'a' as int + 10
    else c as int - 'A' as int + 10
  }

  /** The octet written as `%XY` at position k of s, if there is one. */
  function OctetAt(s: string, k: nat): (r: Option<int>)
    ensures r.Some? <==> k + 3 <= |s| && s[k] == '%' && IsHexDigit(s[k + 1]) && IsHexDigit(s[k + 2])
    ensures r.Some? ==> 0 <= r.value < 256
  {
    if k + 3 <= |s| && s[k] == '%' && IsHexDigit(s[k + 1]) && IsHexDigit(s[k + 2]) then
      Some(HexValue(s[k + 1]) * 16 + HexValue(s[k + 2]))
    else
      None
  }

  /**
    The length of the UTF-8 sequence that a leading octet announces, from its
    number of leading one bits; 0 when the octet cannot start a sequence
    (a continuation octet 10xxxxxx, or five or more leading ones).
  */
  function SequenceLength(b0: int): (n: nat)
    requires 0 <= b0 < 256
    ensures n <= 4
    ensures n == 1 <==> b0 < 0x80
  {
    if b0 < 0x80 then 1
    else if b0 < 0xC0 then 0
    else if b0 < 0xE0 then 2
    else if b0 < 0xF0 then 3
    else if b0 < 0xF8 then 4
    else 0
  }

  predicate IsContinuation(b: int) {
    0x80 <= b < 0xC0
  }

  /** The scalar value encoded by a leading octet and its continuation octets. */
  function CodePoint(b0: int, rest: seq<int>): int
    requires |rest| <= 3
  {
    if |rest| == 0 then b0
    else if |rest| == 1 then (b0 - 0xC0) * 0x40 + (rest[0] - 0x80)
    else if |rest| == 2 then (b0 - 0xE0) * 0x1000 + (rest[0] - 0x80) * 0x40 + (rest[1] - 0x80)
    else (b0 - 0xF0) * 0x40000 + (rest[0] - 0x80) * 0x1000 + (rest[1] - 0x80) * 0x40 + (rest[2] - 0x80)
  }

  /** The smallest scalar value a sequence of n octets may encode (shorter forms are overlong). */
  function MinCodePoint(n: nat): int {
    if n <= 1 then 0 else if n == 2 then 0x80 else if n == 3 then 0x800 else 0x10000
  }

  /** A value that is a Unicode scalar value: in range and not a surrogate. */
  predicate IsScalar(v: int) {
    (0 <= v < 0xD800) || (0xE000 <= v < 0x11_0000)
  }

  /** The `count` continuation octets written as escapes from position k on. */
  function Continuations(s: string, k: nat, count: nat): (r: Option<seq<int>>)
    requires k <= |s|
    decreases count
    ensures r.Some? ==> |r.value| == count && k + 3 * count <= |s|
    ensures r.Some? ==> forall i :: 0 <= i < count ==> IsContinuation(r.value[i])
  {
    if count == 0 then Some([])
    else match OctetAt(s, k)
      case None => None
      case Some(b) =>
        if !IsContinuation(b) then None
        else match Continuations(s, k + 3, count - 1)
          case None => None
          case Some(bs) => Some([b] + bs)
  }

  /**
    Decodes the escape sequence that starts s (s[0] is `%`): the character it
    stands for and the number of input characters it spans.
  */
  function DecodeEscape(s: string): (r: Option<(char, nat)>)
    ensures r.Some? ==> OctetAt(s, 0).Some?
    ensures r.Some? ==> 3 <= r.value.1 <= 12 && r.value.1 <= |s| && r.value.1 % 3 == 0
    ensures r.Some? && (r.value.0 as int) < 0x80 ==> r.value.1 == 3
  {
    match OctetAt(s, 0)
    case None => None
    case Some(b0) =>
      var n := SequenceLength(b0);
      if n == 0 then None
      else match Continuations(s, 3, n - 1)
        case None => None
        case Some(rest) =>
          var v := CodePoint(b0, rest);
          if v < MinCodePoint(n) || !IsScalar(v) then None
          else Some((v as char, 3 * n))
  }

  /** `decodeURIComponent`: None when it would throw. */
  function Decode(s: string): (r: Option<string>)
    decreases |s|
    ensures r.Some? ==> |r.value| <= |s|
  {
    if s == [] then Some([])
    else
      match Step(s)
      case None => None
      case Some((c, n)) => Prepend(c, Decode(s[n..]))
  }

  /** The first decoded character of a non-empty s and the number of input characters it spans. */
  function Step(s: string): (r: Option<(char, nat)>)
    requires s != []
    ensures r.Some? ==> 1 <= r.value.1 <= |s|
  {
    if s[0] != '%' then Some((s[0], 1)) else DecodeEscape(s)
  }

  /** One decoded character in front of the decoding of the rest, if that succeeded. */
  function Prepend(c: char, r: Option<string>): (r': Option<string>)
    ensures r'.Some? <==> r.Some?
    ensures r'.Some? ==> r'.value == [c] + r.value
  {
    match r
    case None => None
    case Some(t) => Some([c] + t)
  }

  /** A string without `%` decodes to itself. */
  lemma {:induction false} DecodeWithoutPercent(s: string)
    requires '%' !in s
    ensures Decode(s) == Some(s)
  {
    if s != [] {
      assert '%' !in s[1..] by {
        forall i | 0 <= i < |s[1..]| ensures s[1..][i] != '%' {
          assert s[1..][i] == s[i + 1];
        }
      }
      DecodeWithoutPercent(s[1..]);
      assert s == [s[0]] + s[1..];
    }
  }

  /** A step reads only the characters it spans, so text after them does not change it. */
  lemma StepAppend(p: string, q: string)
    requires p != [] && Step(p).Some?
    ensures Step(p + q) == Step(p)
  {
    assert (p + q)[0] == p[0];
    if p[0] == '%' {
      var b0 := OctetAt(p, 0).value;
      assert OctetAt(p + q, 0) == OctetAt(p, 0);
      var n := SequenceLength(b0);
      ContinuationsAppend(p, q, 3, n - 1);
    }
  }

  lemma {:induction false} ContinuationsAppend(p: string, q: string, k: nat, count: nat)
    requires k <= |p|
    requires Continuations(p, k, count).Some?
    ensures Continuations(p + q, k, count) == Continuations(p, k, count)
    decreases count
  {
    if count > 0 {
      assert OctetAt(p + q, k) == OctetAt(p, k);
      ContinuationsAppend(p, q, k + 3, count - 1);
    }
  }

  /**
    Decoding is compositional: a string that decodes on its own is followed,
    in the decoding of a longer string, by the decoding of the rest.
  */
  lemma {:induction false} DecodeAppend(p: string, q: string)
    requires Decode(p).Some?
    ensures Decode(q).None? ==> Decode(p + q).None?
    ensures Decode(q).Some? ==> Decode(p + q) == Some(Decode(p).value + Decode(q).value)
    decreases |p|, 1
  {
    if p == [] {
      assert p + q == q;
      assert Decode(p).value == [];
      if Decode(q).Some? {
        assert [] + Decode(q).value == Decode(q).value;
      }
    } else {
      DecodeAppendStep(p, q);
    }
  }

  lemma {:induction false} DecodeAppendStep(p: string, q: string)
    requires p != [] && Decode(p).Some?
    ensures Decode(q).None? ==> Decode(p + q).None?
    ensures Decode(q).Some? ==> Decode(p + q) == Some(Decode(p).value + Decode(q).value)
    decreases |p|, 0
  {
    var c, n := Step(p).value.0, Step(p).value.1;
    DecodeStepAppend(p, q, c, n);
    DecodeAppend(p[n..], q);
    PrependConcat(c, Decode(p[n..]), Decode(q), Decode(p[n..] + q));
  }

  /** The first step of p is also the first step of p + q. */
  lemma DecodeStepAppend(p: string, q: string, c: char, n: nat)
    requires p != [] && Step(p) == Some((c, n))
    ensures n <= |p|
    ensures Decode(p) == Prepend(c, Decode(p[n..]))
    ensures Decode(p + q) == Prepend(c, Decode(p[n..] + q))
  {
    DecodeStep(p, c, n);
    StepAppend(p, q);
    assert (p + q)[n..] == p[n..] + q;
    DecodeStep(p + q, c, n);
  }

  lemma PrependConcat(c: char, a: Option<string>, b: Option<string>, ab: Option<string>)
    requires a.Some?
    requires b.None? ==> ab.None?
    requires b.Some? ==> ab == Some(a.value + b.value)
    ensures b.None? ==> Prepend(c, ab).None?
    ensures b.Some? ==> Prepend(c, ab) == Some(Prepend(c, a).value + b.value)
  {
    if b.Some? {
      assert [c] + (a.value + b.value) == ([c] + a.value) + b.value;
    }
  }

  /** Decoding a non-empty string is its first step followed by the decoding of the rest. */
  lemma DecodeStep(s: string, c: char, n: nat)
    requires s != [] && Step(s) == Some((c, n))
    ensures Decode(s) == Prepend(c, Decode(s[n..]))
  {
  }

  // Where decoding fails: `decodeURIComponent` throws a `URIError`.

  /** A piece whose first step fails makes any decodable text in front of it fail too. */
  lemma StepFailureFails(p: string, s: string)
    requires s != [] && Step(s).None?
    ensures Decode(p).Some? ==> Decode(p + s).None?
  {
    assert Decode(s).None?;
    if Decode(p).Some? {
      DecodeAppend(p, s);
    }
  }

  /** A `%` with fewer than two characters after it, at the end of the input, is malformed, whatever comes before. */
  lemma IncompleteEscapeFails(p: string, t: string)
    requires |t| <= 1
    ensures Decode(p + "%" + t).None?
  {
    var r := "%" + t;
    assert r[0] == '%' && OctetAt(r, 0).None?;
    assert p + "%" + t == p + r;
    EscapeWithoutOctetFails(p, r);
  }

  /** A `%` not followed by two hex digits is malformed, whatever comes before or after it. */
  lemma NonHexEscapeFails(p: string, c1: char, c2: char, q: string)
    requires !IsHexDigit(c1) || !IsHexDigit(c2)
    ensures Decode(p + ['%', c1, c2] + q).None?
  {
    var r := ['%', c1, c2] + q;
    assert r[0] == '%' && r[1] == c1 && r[2] == c2;
    assert OctetAt(r, 0).None?;
    assert p + ['%', c1, c2] + q == p + r;
    EscapeWithoutOctetFails(p, r);
  }

  /** A `%` that does not start an escaped octet makes the whole text fail, whatever comes before it. */
  lemma {:induction false} EscapeWithoutOctetFails(p: string, r: string)
    requires r != [] && r[0] == '%' && OctetAt(r, 0).None?
    ensures Decode(p + r).None?
    decreases |p|
  {
    var s := p + r;
    if p == [] {
      assert s == r;
    } else if Step(s).Some? {
      var c, n := Step(s).value.0, Step(s).value.1;
      OctetAtShift(p, r);
      StepStopsBeforeStrayPercent(s, |p|);
      DecodeStep(s, c, n);
      assert s[n..] == p[n..] + r;
      EscapeWithoutOctetFails(p[n..], r);
    }
  }

  /** Reading an escaped octet does not depend on the text in front of it. */
  lemma OctetAtShift(p: string, r: string)
    ensures OctetAt(p + r, |p|) == OctetAt(r, 0)
  {
    if |r| >= 3 {
      assert (p + r)[|p|] == r[0] && (p + r)[|p| + 1] == r[1] && (p + r)[|p| + 2] == r[2];
    }
  }

  /**
    After text that decodes, an escaped octet that cannot start a UTF-8
    sequence (10xxxxxx or 11111xxx) is malformed. The premise matters: in
    `%C3%80` the continuation octet 0x80 is read as part of the character
    that `%C3` starts.
  */
  lemma BadLeadingOctetFails(p: string, s: string)
    requires OctetAt(s, 0).Some? && SequenceLength(OctetAt(s, 0).value) == 0
    ensures Decode(p).Some? ==> Decode(p + s).None?
  {
    StepFailureFails(p, s);
  }

  /**
    Malformed UTF-8 is refused: a lone continuation octet, an overlong form
    of `/`, an encoded surrogate, and a value above U+10FFFF.
  */
  lemma InvalidUtf8Fails()
    ensures Decode("%80").None?
    ensures Decode("%C0%AF").None?
    ensures Decode("%ED%A0%80").None?
    ensures Decode("%F4%90%80%80").None?
  {
    LoneContinuationFails();
    OverlongSlashFails();
    SurrogateFails();
    AboveMaxFails();
  }

  lemma LoneContinuationFails()
    ensures Decode("%80").None?
  {
    assert OctetAt("%80", 0) == Some(0x80);
    assert DecodeEscape("%80").None?;
  }

  lemma OverlongSlashFails()
    ensures Decode("%C0%AF").None?
  {
    var s := "%C0%AF";
    assert OctetAt(s, 0) == Some(0xC0);
    assert OctetAt(s, 3) == Some(0xAF);
    assert Continuations(s, 6, 0) == Some([]);
    var rest := [0xAF] + [];
    assert Continuations(s, 3, 1) == Some(rest);
    assert CodePoint(0xC0, rest) == 0x2F;
    assert DecodeEscape(s).None?;
  }

  lemma SurrogateFails()
    ensures Decode("%ED%A0%80").None?
  {
    var s := "%ED%A0%80";
    assert OctetAt(s, 0) == Some(0xED);
    assert OctetAt(s, 3) == Some(0xA0);
    assert OctetAt(s, 6) == Some(0x80);
    assert Continuations(s, 9, 0) == Some([]);
    var rest := [0xA0] + ([0x80] + []);
    assert Continuations(s, 6, 1) == Some([0x80] + []);
    assert Continuations(s, 3, 2) == Some(rest);
    assert CodePoint(0xED, rest) == 0xD800;
    assert DecodeEscape(s).None?;
  }

  lemma AboveMaxFails()
    ensures Decode("%F4%90%80%80").None?
  {
    var s := "%F4%90%80%80";
    assert OctetAt(s, 0) == Some(0xF4);
    assert OctetAt(s, 3) == Some(0x90);
    assert OctetAt(s, 6) == Some(0x80);
    assert OctetAt(s, 9) == Some(0x80);
    assert Continuations(s, 12, 0) == Some([]);
    var rest := [0x90] + ([0x80] + ([0x80] + []));
    assert Continuations(s, 9, 1) == Some([0x80] + []);
    assert Continuations(s, 6, 2) == Some([0x80] + ([0x80] + []));
    assert Continuations(s, 3, 3) == Some(rest);
    assert CodePoint(0xF4, rest) == 0x11_0000;
    assert DecodeEscape(s).None?;
  }

  /** Reading `count` continuation octets from k reads an escaped continuation octet at every third position. */
  lemma {:induction false} ContinuationsRead(s: string, k: nat, count: nat, j: nat)
    requires k <= |s| && j < count
    requires Continuations(s, k, count).Some?
    ensures OctetAt(s, k + 3 * j).Some? && IsContinuation(OctetAt(s, k + 3 * j).value)
    decreases count
  {
    if j > 0 {
      assert OctetAt(s, k).Some? && Continuations(s, k + 3, count - 1).Some?;
      ContinuationsRead(s, k + 3, count - 1, j - 1);
      assert k + 3 + 3 * (j - 1) == k + 3 * j;
    }
  }

  /**
    A step never runs over a `%` further on that cannot be read as an
    escaped continuation octet (such as `%25`, or a `%` without two hex
    digits after it): inside an escape sequence every third position starts
    an escaped continuation octet and the others hold hex digits.
  */
  lemma StepStopsBeforeStrayPercent(s: string, m: nat)
    requires 1 <= m < |s| && s[m] == '%'
    requires OctetAt(s, m).None? || !IsContinuation(OctetAt(s, m).value)
    requires Step(s).Some?
    ensures Step(s).value.1 <= m
  {
    if s[0] == '%' {
      DecodeEscapeReads(s, m / 3);
    }
  }

  /** A decoded escape reads an escaped continuation octet at every third position after the first escape. */
  lemma DecodeEscapeReads(s: string, j: nat)
    requires DecodeEscape(s).Some?
    ensures 1 <= j && 3 * j < DecodeEscape(s).value.1 ==>
      OctetAt(s, 3 * j).Some? && IsContinuation(OctetAt(s, 3 * j).value)
  {
    var len := SequenceLength(OctetAt(s, 0).value);
    assert DecodeEscape(s).value.1 == 3 * len;
    if 1 <= j && 3 * j < 3 * len {
      ContinuationsRead(s, 3, len - 1, j - 1);
    }
  }

  /** Text that starts with `%25` decodes, if at all, to text that starts with `%`. */
  lemma EscapedPercentFirst(q: string)
    ensures Decode("%25" + q).Some? ==> Decode("%25" + q).value[0] == '%'
  {
    var s := "%25" + q;
    assert OctetAt(s, 0) == Some(0x25);
    assert DecodeEscape(s) == Some(('%', 3));
    DecodeStep(s, '%', 3);
  }

  /** An escaped percent sign `%25` yields a `%` in the decoded text, whatever surrounds it. */
  lemma {:induction false} EscapedPercentDecodesToPercent(p: string, q: string)
    ensures Decode(p + "%25" + q).Some? ==> '%' in Decode(p + "%25" + q).value
    decreases |p|
  {
    var s := p + "%25" + q;
    if p == [] {
      assert s == "%25" + q;
      EscapedPercentFirst(q);
    } else if Step(s).Some? {
      var c, n := Step(s).value.0, Step(s).value.1;
      assert s[|p|] == '%' && s[|p| + 1] == '2' && s[|p| + 2] == '5';
      assert OctetAt(s, |p|) == Some(0x25);
      StepStopsBeforeStrayPercent(s, |p|);
      DecodeStep(s, c, n);
      assert s[n..] == p[n..] + "%25" + q;
      EscapedPercentDecodesToPercent(p[n..], q);
      PercentSurvivesPrepend(c, Decode(s[n..]));
    }
  }

  lemma PercentSurvivesPrepend(c: char, r: Option<string>)
    requires r.Some? ==> '%' in r.value
    ensures Prepend(c, r).Some? ==> '%' in Prepend(c, r).value
  {
    if r.Some? {
      var i :| 0 <= i < |r.value| && r.value[i] == '%';
      assert Prepend(c, r).value[i + 1] == '%';
    }
  }

  // A reference encoder: every character as the percent-escapes of its UTF-8 octets.

  function HexDigit(d: int): char
    requires 0 <= d < 16
  {
    if d < 10 then ('0' as int + d) as char else ('A' as int + d - 10) as char
  }

  /** Every digit value is written as a hex digit that reads back as that value. */
  lemma HexDigitReadsBack(d: int)
    requires 0 <= d < 16
    ensures IsHexDigit(HexDigit(d)) && HexValue(HexDigit(d)) == d
  {
  }

  function Escape(b: int): string
    requires 0 <= b < 256
  {
    ['%', HexDigit(b / 16), HexDigit(b % 16)]
  }

  /** The UTF-8 octets of one scalar value (section 3 of RFC 3629). */
  function Utf8Octets(c: char): (bs: seq<int>)
    ensures 1 <= |bs| <= 4
    ensures forall i :: 0 <= i < |bs| ==> 0 <= bs[i] < 256
  {
    // v in base 64: w = v / 64, x = w / 64, y = x / 64
    var v := c as int;
    var w := v / 0x40;
    var x := w / 0x40;
    var y := x / 0x40;
    if v < 0x80 then [v]
    else if v < 0x800 then [0xC0 + w, 0x80 + v % 0x40]
    else if v < 0x10000 then [0xE0 + x, 0x80 + w % 0x40, 0x80 + v % 0x40]
    else [0xF0 + y, 0x80 + x % 0x40, 0x80 + w % 0x40, 0x80 + v % 0x40]
  }

  function EscapeOctets(bs: seq<int>): (e: string)
    requires forall i :: 0 <= i < |bs| ==> 0 <= bs[i] < 256
    ensures |e| == 3 * |bs|
  {
    if bs == [] then [] else Escape(bs[0]) + EscapeOctets(bs[1..])
  }

  function EncodeChar(c: char): string {
    EscapeOctets(Utf8Octets(c))
  }

  function Encode(s: string): string {
    if s == [] then [] else EncodeChar(s[0]) + Encode(s[1..])
  }

  /** In an escaped run followed by anything, the octet read at position 3 * j is octet j. */
  lemma OctetOfEscapes(bs: seq<int>, rest: string, j: nat)
    requires forall i :: 0 <= i < |bs| ==> 0 <= bs[i] < 256
    requires j < |bs|
    ensures OctetAt(EscapeOctets(bs) + rest, 3 * j) == Some(bs[j])
  {
    var s := EscapeOctets(bs) + rest;
    var b := bs[j];
    EscapedInRun(bs, rest, j);
    EscapeReadsBack(s, 3 * j, b);
  }

  /** The escape of octet b is written out at position k of s. */
  predicate EscapedAt(s: string, k: nat, b: int)
    requires 0 <= b < 256
  {
    k + 3 <= |s| && s[k] == '%' && s[k + 1] == HexDigit(b / 16) && s[k + 2] == HexDigit(b % 16)
  }

  /** Escape j of a run stays in place whatever follows the run. */
  lemma EscapedInRun(bs: seq<int>, rest: string, j: nat)
    requires forall i :: 0 <= i < |bs| ==> 0 <= bs[i] < 256
    requires j < |bs|
    ensures EscapedAt(EscapeOctets(bs) + rest, 3 * j, bs[j])
  {
    EscapedInRunAlone(bs, j);
    EscapedAtPrefix(EscapeOctets(bs), rest, 3 * j, bs[j]);
  }

  /** Escape j of a run sits at position 3 * j of the run. */
  lemma {:induction false} EscapedInRunAlone(bs: seq<int>, j: nat)
    requires forall i :: 0 <= i < |bs| ==> 0 <= bs[i] < 256
    requires j < |bs|
    ensures EscapedAt(EscapeOctets(bs), 3 * j, bs[j])
    decreases |bs|
  {
    var head := Escape(bs[0]);
    var tail := EscapeOctets(bs[1..]);
    assert EscapeOctets(bs) == head + tail;
    if j == 0 {
      EscapedAtPrefix(head, tail, 0, bs[0]);
    } else {
      EscapedInRunAlone(bs[1..], j - 1);
      EscapedAtSuffix(head, tail, 3 * (j - 1), bs[j]);
    }
  }

  /** Prepending to s shifts an escape written in s by the length prepended. */
  lemma EscapedAtSuffix(p: string, s: string, k: nat, b: int)
    requires 0 <= b < 256
    requires EscapedAt(s, k, b)
    ensures EscapedAt(p + s, |p| + k, b)
  {
  }

  /** Appending to s leaves an escape written in s in place. */
  lemma EscapedAtPrefix(s: string, rest: string, k: nat, b: int)
    requires 0 <= b < 256
    requires EscapedAt(s, k, b)
    ensures EscapedAt(s + rest, k, b)
  {
  }

  /** An escape written out at position k reads back as its octet. */
  lemma EscapeReadsBack(s: string, k: nat, b: int)
    requires 0 <= b < 256
    requires EscapedAt(s, k, b)
    ensures OctetAt(s, k) == Some(b)
  {
    HexDigitReadsBack(b / 16);
    HexDigitReadsBack(b % 16);
  }

  /** Continuation octets escaped one after another from position k are read back as they are. */
  lemma ContinuationsOfEscapes(s: string, k: nat, bs: seq<int>)
    requires k <= |s|
    requires forall j :: 0 <= j < |bs| ==> OctetAt(s, k + 3 * j) == Some(bs[j]) && IsContinuation(bs[j])
    ensures Continuations(s, k, |bs|) == Some(bs)
  {
    ContinuationsFrom(s, k, bs, 0);
    assert bs[0..] == bs;
  }

  /** The same, for the octets from index i on. */
  lemma {:induction false} ContinuationsFrom(s: string, k: nat, bs: seq<int>, i: nat)
    requires i <= |bs| && k + 3 * i <= |s|
    requires forall j :: 0 <= j < |bs| ==> OctetAt(s, k + 3 * j) == Some(bs[j]) && IsContinuation(bs[j])
    ensures Continuations(s, k + 3 * i, |bs| - i) == Some(bs[i..])
    decreases |bs| - i
  {
    if i < |bs| {
      assert OctetAt(s, k + 3 * i) == Some(bs[i]);
      assert k + 3 * i + 3 == k + 3 * (i + 1);
      ContinuationsFrom(s, k, bs, i + 1);
      assert bs[i..] == [bs[i]] + bs[i + 1..];
    }
  }

  /** The octets of a character form one well-formed UTF-8 sequence that encodes it. */
  lemma Utf8OctetsWellFormed(c: char)
    ensures var bs := Utf8Octets(c);
      && SequenceLength(bs[0]) == |bs|
      && (forall i :: 1 <= i < |bs| ==> IsContinuation(bs[i]))
      && CodePoint(bs[0], bs[1..]) == c as int
      && MinCodePoint(|bs|) <= c as int
  {
    var v := c as int;
    var w := v / 0x40;
    var x := w / 0x40;
    var y := x / 0x40;
    var bs := Utf8Octets(c);
    assert v == w * 0x40 + v % 0x40;
    assert w == x * 0x40 + w % 0x40;
    assert x == y * 0x40 + x % 0x40;
    if v < 0x80 {
    } else if v < 0x800 {
      assert bs[1..] == [0x80 + v % 0x40];
    } else if v < 0x10000 {
      assert bs[1..] == [0x80 + w % 0x40, 0x80 + v % 0x40];
    } else {
      assert bs[1..] == [0x80 + x % 0x40, 0x80 + w % 0x40, 0x80 + v % 0x40];
    }
  }

  /** The escapes of a character decode back to that character and nothing more. */
  lemma EncodeCharDecodes(c: char, rest: string)
    ensures DecodeEscape(EncodeChar(c) + rest) == Some((c, |EncodeChar(c)|))
  {
    var bs := Utf8Octets(c);
    var b0, more := bs[0], bs[1..];
    var e := EncodeChar(c) + rest;
    assert OctetAt(e, 0) == Some(b0) by {
      OctetOfEscapes(bs, rest, 0);
    }
    assert SequenceLength(b0) == |more| + 1 && CodePoint(b0, more) == c as int
        && MinCodePoint(|more| + 1) <= c as int
        && forall j :: 0 <= j < |more| ==> IsContinuation(more[j]) by {
      Utf8OctetsWellFormed(c);
    }
    assert Continuations(e, 3, |more|) == Some(more) by {
      forall j | 0 <= j < |more| ensures OctetAt(e, 3 + 3 * j) == Some(more[j]) {
        OctetOfEscapes(bs, rest, j + 1);
        assert 3 * (j + 1) == 3 + 3 * j;
      }
      ContinuationsOfEscapes(e, 3, more);
    }
    DecodeEscapeOf(e, b0, more, c);
  }

  /** An escape whose octets form a well-formed sequence decodes to the scalar value they encode. */
  lemma DecodeEscapeOf(s: string, b0: int, rest: seq<int>, c: char)
    requires OctetAt(s, 0) == Some(b0)
    requires SequenceLength(b0) == |rest| + 1
    requires Continuations(s, 3, |rest|) == Some(rest)
    requires CodePoint(b0, rest) == c as int && MinCodePoint(|rest| + 1) <= c as int
    ensures DecodeEscape(s) == Some((c, 3 * (|rest| + 1)))
  {
  }

  /** Decoding inverts the reference encoder. */
  lemma {:induction false} DecodeEncode(s: string)
    ensures Decode(Encode(s)) == Some(s)
  {
    if s != [] {
      var e := Encode(s);
      var head := EncodeChar(s[0]);
      EncodeCharDecodes(s[0], Encode(s[1..]));
      assert e == head + Encode(s[1..]);
      assert e[0] == '%';
      assert Step(e) == Some((s[0], |head|));
      assert e[|head|..] == Encode(s[1..]);
      DecodeEncode(s[1..]);
      assert s == [s[0]] + s[1..];
    }
  }
}
