/**
  Percent-decoding of a URI (`UriDecoder`), section 2.1 of RFC 3986.

  Bytes are numbers below 256; a C string is an array that ends in a zero byte.
 */
module UriDecoder {
  import opened Bytes

  const PERCENT: Byte := 0x25

  datatype Option<T> = None | Some(value: T)

  // ----- Hex digits

  /** `c | 0x20` */
  function OrBit5(c: Byte): Byte {
    if (c / 32) % 2 == 0 then c + 32 else c
  }

  /** The value of a hex digit in either case, as the decoder tells it; -1 for other bytes. */
  function HexValue(c: Byte): (v: int)
    ensures -1 <= v < 16
  {
    if 0x30 <= c <= 0x39 then c - 0x30
    else if 0x61 <= OrBit5(c) <= 0x66 then OrBit5(c) - 0x57
    else -1
  }

  function HexDigit(v: int, upper: bool): Byte
    requires 0 <= v < 16
  {
    if v < 10 then 0x30 + v else if upper then 0x41 + v - 10 else 0x61 + v - 10
  }

  /** A byte has the value of a hex digit exactly when it is that digit, in one of the cases. */
  lemma HexValueExact(c: Byte, v: int)
    requires 0 <= v < 16
    ensures HexValue(c) == v <==> c == HexDigit(v, true) || c == HexDigit(v, false)
  {
  }

  // ----- Encoding

  /** How a byte is written: as itself, or escaped with each hex digit in either case. */
  datatype Form = Literal | Escaped(upperHigh: bool, upperLow: bool)

  function EncodeByte(b: Byte, form: Form): seq<Byte> {
    match form
    case Literal => [b]
    case Escaped(high, low) => [PERCENT, HexDigit(b / 16, high), HexDigit(b % 16, low)]
  }

  /** Any encoding that escapes at least every percent sign. */
  predicate Legal(data: seq<Byte>, forms: seq<Form>) {
    |forms| == |data| && forall i | 0 <= i < |data| :: data[i] == PERCENT ==> forms[i].Escaped?
  }

  function Encode(data: seq<Byte>, forms: seq<Form>): seq<Byte>
    requires |forms| == |data|
  {
    if data == [] then [] else EncodeByte(data[0], forms[0]) + Encode(data[1..], forms[1..])
  }

  // ----- Decoding

  /** Whether an escape starts at the front of `s`. */
  predicate GoodEscape(s: seq<Byte>) {
    |s| >= 3 && HexValue(s[1]) >= 0 && HexValue(s[2]) >= 0
  }

  function Decode(s: seq<Byte>): Option<seq<Byte>> {
    if s == [] then Some([])
    else if s[0] != PERCENT then Prepend(s[0], Decode(s[1..]))
    else if GoodEscape(s) then Prepend(HexValue(s[1]) * 16 + HexValue(s[2]), Decode(s[3..]))
    else None
  }

  function Prepend(b: Byte, rest: Option<seq<Byte>>): Option<seq<Byte>> {
    match rest case None => None case Some(r) => Some([b] + r)
  }

  /** Decoding inverts every legal encoding. */
  lemma {:induction false} DecodeInvertsEncode(data: seq<Byte>, forms: seq<Form>)
    requires Legal(data, forms)
    ensures Decode(Encode(data, forms)) == Some(data)
    decreases |data|
  {
    if data != [] {
      var b, s := data[0], Encode(data, forms);
      DecodeInvertsEncode(data[1..], forms[1..]);
      if forms[0].Literal? {
        assert s[1..] == Encode(data[1..], forms[1..]);
      } else {
        HexValueExact(s[1], b / 16);
        HexValueExact(s[2], b % 16);
        assert s[3..] == Encode(data[1..], forms[1..]);
      }
      assert data == [b] + data[1..];
    }
  }

  lemma EscapeForm(s: seq<Byte>) returns (form: Form)
    requires GoodEscape(s) && s[0] == PERCENT
    ensures form.Escaped? && EncodeByte(HexValue(s[1]) * 16 + HexValue(s[2]), form) == s[..3]
  {
    HexValueExact(s[1], HexValue(s[1]));
    HexValueExact(s[2], HexValue(s[2]));
    form := Escaped(s[1] == HexDigit(HexValue(s[1]), true), s[2] == HexDigit(HexValue(s[2]), true));
  }

  /** Whatever can be decoded is a legal encoding of the result. */
  lemma {:induction false} DecodedIsEncoding(s: seq<Byte>) returns (forms: seq<Form>)
    requires Decode(s).Some?
    ensures Legal(Decode(s).value, forms) && Encode(Decode(s).value, forms) == s
    decreases |s|
  {
    if s == [] {
      forms := [];
    } else if s[0] != PERCENT {
      var rest := DecodedIsEncoding(s[1..]);
      forms := [Literal] + rest;
      var data := Decode(s).value;
      assert data[1..] == Decode(s[1..]).value && forms[1..] == rest;
    } else {
      var rest := DecodedIsEncoding(s[3..]);
      var form := EscapeForm(s);
      forms := [form] + rest;
      var data := Decode(s).value;
      assert data[1..] == Decode(s[3..]).value && forms[1..] == rest;
      assert s == s[..3] + s[3..];
    }
  }

  /** A string is decoded exactly to what it encodes, and refused exactly when it encodes nothing. */
  lemma DecodeExact(s: seq<Byte>, data: seq<Byte>)
    ensures Decode(s) == Some(data) <==> exists forms :: Legal(data, forms) && Encode(data, forms) == s
  {
    if Decode(s) == Some(data) {
      var forms := DecodedIsEncoding(s);
    }
    forall forms | Legal(data, forms) && Encode(data, forms) == s ensures Decode(s) == Some(data) {
      DecodeInvertsEncode(data, forms);
    }
  }

  // ----- What a C string shows of the result

  function UpToZero(s: seq<Byte>): seq<Byte> {
    if s == [] || s[0] == 0 then [] else [s[0]] + UpToZero(s[1..])
  }

  lemma {:induction false} UpToZeroAt(s: seq<Byte>, n: nat)
    requires n < |s| && s[n] == 0
    ensures UpToZero(s) == UpToZero(s[..n])
    decreases n
  {
    if n > 0 {
      assert s[1..][..n - 1] == s[..n][1..];
      UpToZeroAt(s[1..], n - 1);
    }
  }

  predicate ZeroFree(s: seq<Byte>) {
    forall i | 0 <= i < |s| :: s[i] != 0
  }

  lemma {:induction false} UpToZeroExactly(s: seq<Byte>)
    ensures UpToZero(s) == s <==> ZeroFree(s)
    decreases |s|
  {
    if s != [] {
      UpToZeroExactly(s[1..]);
      assert s == [s[0]] + s[1..];
    }
  }

  /** Whether an escape that the decoder scans is the one of the zero byte. */
  predicate EscapesZero(s: seq<Byte>) {
    s != [] &&
    if s[0] != PERCENT then EscapesZero(s[1..])
    else |s| >= 3 && ((s[1] == 0x30 && s[2] == 0x30) || EscapesZero(s[3..]))
  }

  lemma {:induction false} ZeroExactly(s: seq<Byte>)
    requires Decode(s).Some? && ZeroFree(s)
    ensures ZeroFree(Decode(s).value) <==> !EscapesZero(s)
    decreases |s|
  {
    if s != [] {
      if s[0] != PERCENT {
        ZeroExactly(s[1..]);
        ZeroFreePrepend(s[0], Decode(s[1..]).value);
      } else {
        ZeroExactly(s[3..]);
        ZeroDigit(s[1]);
        ZeroDigit(s[2]);
        ZeroFreePrepend(HexValue(s[1]) * 16 + HexValue(s[2]), Decode(s[3..]).value);
      }
    }
  }

  lemma ZeroDigit(c: Byte)
    ensures HexValue(c) == 0 <==> c == 0x30
  {
    HexValueExact(c, 0);
  }

  lemma ZeroFreePrepend(b: Byte, rest: seq<Byte>)
    ensures ZeroFree([b] + rest) <==> b != 0 && ZeroFree(rest)
  {
    assert ([b] + rest)[0] == b;
    assert forall i | 0 <= i < |rest| :: ([b] + rest)[i + 1] == rest[i];
  }

  /** The caller sees all that was decoded exactly when no scanned escape is `%00`. */
  lemma SeenExactly(s: seq<Byte>)
    requires Decode(s).Some? && ZeroFree(s)
    ensures UpToZero(Decode(s).value) == Decode(s).value <==> !EscapesZero(s)
  {
    UpToZeroExactly(Decode(s).value);
    ZeroExactly(s);
  }

  /** As a C string, decoding inverts an encoding exactly when the data has no zero byte. */
  lemma SeenInvertsEncode(data: seq<Byte>, forms: seq<Form>)
    requires Legal(data, forms)
    ensures Decode(Encode(data, forms)).Some?
    ensures UpToZero(Decode(Encode(data, forms)).value) == data <==> ZeroFree(data)
  {
    DecodeInvertsEncode(data, forms);
    UpToZeroExactly(data);
  }

  /** Of `a%00b` the caller sees `a`. */
  lemma SeenOfEscapedZero()
    ensures var s := [0x61, PERCENT, 0x30, 0x30, 0x62];
      Decode(s) == Some([0x61, 0, 0x62]) && UpToZero(Decode(s).value) == [0x61]
  {
    var data, forms := [0x61, 0, 0x62], [Literal, Escaped(true, true), Literal];
    var s := [0x61, PERCENT, 0x30, 0x30, 0x62];
    assert data[1..] == [0, 0x62] && data[1..][1..] == [0x62] && data[1..][1..][1..] == [];
    assert forms[1..] == [Escaped(true, true), Literal] && forms[1..][1..] == [Literal] && forms[1..][1..][1..] == [];
    assert Encode(data[1..][1..], forms[1..][1..]) == [0x62];
    assert Encode(data[1..], forms[1..]) == [PERCENT, 0x30, 0x30, 0x62];
    assert Encode(data, forms) == s;
    DecodeInvertsEncode(data, forms);
    UpToZeroAt(data, 1);
    assert data[..1] == [0x61] && [0x61][1..] == [];
  }

  // ----- The decoder

  /** A zero-terminated array. */
  ghost predicate Terminated(a: array<Byte>)
    reads a
  {
    a.Length > 0 && a[a.Length - 1] == 0 && forall i | 0 <= i < a.Length - 1 :: a[i] != 0
  }

  ghost function Text(a: array<Byte>): seq<Byte>
    reads a
    requires a.Length > 0
  {
    a[..a.Length - 1]
  }

  /** Reads two hex digits.  The second is read only if the first is one, so never past the terminator. */
  method HexCharPairToByte(uri: array<Byte>, at: nat) returns (ok: bool, byte: Byte)
    requires Terminated(uri) && at < uri.Length
    ensures ok <==> at + 2 < uri.Length && HexValue(uri[at]) >= 0 && HexValue(uri[at + 1]) >= 0
    ensures ok ==> byte == HexValue(uri[at]) * 16 + HexValue(uri[at + 1])
  {
    var value := 0;
    for i := 0 to 2
      invariant i < 2 ==> at + i < uri.Length
      invariant i == 0 ==> value == 0
      invariant i == 1 ==> HexValue(uri[at]) >= 0 && value == HexValue(uri[at])
      invariant i == 2 ==>
        && at + 2 < uri.Length && HexValue(uri[at]) >= 0 && HexValue(uri[at + 1]) >= 0
        && value == HexValue(uri[at]) * 16 + HexValue(uri[at + 1])
    {
      var c := uri[at + i];
      if HexValue(c) < 0 {
        return false, 0;
      }
      assert c != 0;
      value := value * 16 + HexValue(c);
    }
    return true, value;
  }

  /** Nothing to decode: the input itself; or a new string; or a malformed input. */
  datatype Decoded = Original | Copy(dest: array<Byte>) | Failed

  /** What the whole decodes to, when `done` is decoded already. */
  function Continue(done: seq<Byte>, rest: Option<seq<Byte>>): Option<seq<Byte>> {
    match rest case None => None case Some(r) => Some(done + r)
  }

  lemma ContinueEnds(s: seq<Byte>)
    ensures Continue([], Decode(s)) == Decode(s)
    ensures Continue(s, Decode([])) == Some(s)
  {
    if Decode(s).Some? { assert [] + Decode(s).value == Decode(s).value; }
    assert s + [] == s;
  }

  lemma ContinueByte(done: seq<Byte>, b: Byte, rest: Option<seq<Byte>>)
    ensures Continue(done, Prepend(b, rest)) == Continue(done + [b], rest)
  {
    if rest.Some? { assert done + ([b] + rest.value) == done + [b] + rest.value; }
  }

  /** What the caller reads: the string up to its first zero byte. */
  ghost function Seen(uri: array<Byte>, r: Decoded): seq<Byte>
    requires !r.Failed?
    reads uri, if r.Copy? then {r.dest} else {}
  {
    UpToZero(if r.Copy? then r.dest[..] else uri[..])
  }

  /** Finds the first percent sign, or the end; what comes before it stands for itself. */
  method ScanPlain(uri: array<Byte>) returns (ch: nat)
    requires Terminated(uri)
    ensures ch < uri.Length && (uri[ch] == 0 || uri[ch] == PERCENT)
    ensures Decode(Text(uri)) == Continue(Text(uri)[..ch], Decode(Text(uri)[ch..]))
  {
    hide Decode, Continue, HexValue;
    ghost var s := Text(uri);
    ch := 0;
    assert s[0..] == s;
    assert s[..0] == [];
    ContinueEnds(s);
    while uri[ch] != 0 && uri[ch] != PERCENT
      invariant 0 <= ch <= |s| && Decode(s) == Continue(s[..ch], Decode(s[ch..]))
      decreases |s| - ch
    {
      LiteralStep(s, s[..ch], ch);
      assert s[..ch + 1] == s[..ch] + [s[ch]];
      ch := ch + 1;
    }
  }

  /** A buffer of the same size that starts with the first `n` bytes. */
  method CopyPrefix(uri: array<Byte>, n: nat) returns (dest: array<Byte>)
    requires n <= uri.Length
    ensures fresh(dest) && dest.Length == uri.Length && dest[..n] == uri[..n]
  {
    dest := new Byte[uri.Length](_ => 0);
    var d := 0;
    while d < n
      invariant 0 <= d <= n && dest[..d] == uri[..d]
    {
      dest[d] := uri[d];
      assert uri[..d + 1] == uri[..d] + [uri[d]];
      assert dest[..d + 1] == uri[..d] + [uri[d]];
      d := d + 1;
    }
  }

  /**
    Decodes a URI.  Fails exactly when it is malformed; otherwise what the URI
    encodes is in a buffer no longer than the input, and the caller sees it up to
    the first zero byte.
   */
  method UriDecode(uri: array<Byte>) returns (r: Decoded, ghost length: nat)
    requires Terminated(uri)
    ensures r.Failed? <==> Decode(Text(uri)).None?
    ensures r.Original? ==> Decode(Text(uri)) == Some(Text(uri))
    ensures r.Copy? ==>
      && length < r.dest.Length == uri.Length && r.dest[length] == 0
      && Decode(Text(uri)) == Some(r.dest[..length])
    ensures !r.Failed? ==> Seen(uri, r) == UpToZero(Decode(Text(uri)).value)
  {
    length := 0;
    hide Decode, Continue, HexValue, UpToZero;
    ghost var s := Text(uri);
    var ch := ScanPlain(uri);
    if uri[ch] == 0 {
      assert s[..ch] == s && s[ch..] == [];
      ContinueEnds(s);
      UpToZeroAt(uri[..], |s|);
      r := Original;
      return;
    }
    var dest := CopyPrefix(uri, ch);
    var ok, d := DecodeFrom(uri, ch, dest);
    if !ok {
      r := Failed;
      return;
    }
    r, length := Copy(dest), d;
    assert dest[..][..d] == dest[..d];
    UpToZeroAt(dest[..], d);
  }

  /** Decodes from the first percent sign, at index `i`, on; what comes before it is copied already. */
  method DecodeFrom(uri: array<Byte>, i: nat, dest: array<Byte>) returns (ok: bool, d: nat)
    requires Terminated(uri) && uri != dest && i < dest.Length == uri.Length && uri[i] == PERCENT
    requires dest[..i] == uri[..i] && Decode(Text(uri)) == Continue(Text(uri)[..i], Decode(Text(uri)[i..]))
    modifies dest
    ensures ok <==> Decode(Text(uri)).Some?
    ensures ok ==> d < dest.Length && dest[d] == 0 && Decode(Text(uri)) == Some(dest[..d])
  {
    hide Decode, Continue, HexValue;
    ghost var s := Text(uri);
    var len := uri.Length - 1;
    var ch := i;
    d := i;
    assert dest[..d] == s[..i];
    while uri[ch] != 0
      invariant i <= ch <= len && d <= ch
      invariant ch > i ==> i + 3 <= len
      invariant Decode(s) == Continue(dest[..d], Decode(s[ch..]))
      decreases len - ch
    {
      ghost var done := dest[..d];
      if uri[ch] != PERCENT {
        LiteralStep(s, done, ch);
        dest[d] := uri[ch];
        assert dest[..d + 1] == done + [s[ch]];
        d, ch := d + 1, ch + 1;
        continue;
      }
      EscapeStep(s, done, ch);
      var byte := 0;
      ok := false;
      if i + 3 <= len {
        ok, byte := HexCharPairToByte(uri, ch + 1);
      }
      if !ok {
        return;
      }
      dest[d] := byte;
      assert dest[..d + 1] == done + [byte];
      d, ch := d + 1, ch + 3;
    }
    assert s[ch..] == [];
    ghost var done := dest[..d];
    ContinueEnds(done);
    dest[d] := 0;
    assert dest[..d] == done;
    ok := true;
  }

  lemma LiteralStep(s: seq<Byte>, done: seq<Byte>, ch: nat)
    requires ch < |s| && s[ch] != PERCENT
    ensures Continue(done, Decode(s[ch..])) == Continue(done + [s[ch]], Decode(s[ch + 1..]))
  {
    assert s[ch..][1..] == s[ch + 1..];
    ContinueByte(done, s[ch], Decode(s[ch + 1..]));
  }

  /** A well-formed escape decodes to its byte; a malformed one makes the whole fail. */
  lemma EscapeStep(s: seq<Byte>, done: seq<Byte>, ch: nat)
    requires ch < |s| && s[ch] == PERCENT
    ensures ch + 2 < |s| && HexValue(s[ch + 1]) >= 0 && HexValue(s[ch + 2]) >= 0 ==>
      Continue(done, Decode(s[ch..])) == Continue(done + [HexValue(s[ch + 1]) * 16 + HexValue(s[ch + 2])], Decode(s[ch + 3..]))
    ensures !(ch + 2 < |s| && HexValue(s[ch + 1]) >= 0 && HexValue(s[ch + 2]) >= 0) ==> Continue(done, Decode(s[ch..])) == None
  {
    if GoodEscape(s[ch..]) {
      assert s[ch..][3..] == s[ch + 3..];
      ContinueByte(done, HexValue(s[ch + 1]) * 16 + HexValue(s[ch + 2]), Decode(s[ch + 3..]));
    }
  }
}
