/** A mutable string as a JSON string: the printer, the parser behind strconv.Unquote, and what survives the trip. */
module JsonString {
  import opened Replace
  import opened Utf8
  import opened Wrappers

  const QUOTE: Byte := 0x22
  const SLASH: Byte := 0x2f
  const BACKSLASH: Byte := 0x5c
  const NEWLINE: Byte := 0x0a

  // ---------------------------------------------------------------- the printer

  /** "0123456789abcdef"[n] */
  function HexDigit(n: Byte): Byte {
    if n < 10 then 0x30 + n else 0x57 + n
  }

  function Escape(b: Byte): (e: seq<Byte>)
    ensures e != []
  {
    if b == QUOTE then [BACKSLASH, QUOTE]
    else if b == BACKSLASH then [BACKSLASH, BACKSLASH]
    else if b == NEWLINE then [BACKSLASH, 0x6e]
    else if b == 0x0d then [BACKSLASH, 0x72]
    else if b == 0x09 then [BACKSLASH, 0x74]
    else if b < 0x20 then [BACKSLASH, 0x75, 0x30, 0x30, HexDigit(b >> 4), HexDigit(b & 0xf)]
    else [b]
  }

  function Printed(s: seq<Byte>): seq<Byte>
    decreases |s|
  {
    if s == [] then []
    else if s[0] < 0x80 then Escape(s[0]) + Printed(s[1..])
    else s[..RuneSize(s)] + Printed(s[RuneSize(s)..])
  }

  method MarshalJSON(s: seq<Byte>) returns (out: seq<Byte>)
    ensures out == [QUOTE] + Printed(s) + [QUOTE]
  {
    hide RuneSize, Escape, Printed;
    PrintedNone();
    out := [QUOTE];
    var i := 0;
    while i < |s|
      invariant 0 <= i <= |s| && out + Printed(s[i..]) == [QUOTE] + Printed(s)
    {
      var b := s[i];
      PrintedNext(s[i..]);
      if b < 0x80 {
        out := out + Escape(b);
        assert s[i..][1..] == s[i + 1..];
        i := i + 1;
      } else {
        var size := RuneSize(s[i..]);
        assert s[i..][..size] == s[i..i + size] && s[i..][size..] == s[i + size..];
        out := out + s[i..i + size];
        i := i + size;
      }
    }
    assert s[i..] == [] && out + [] == out;
    out := out + [QUOTE];
  }

  lemma {:induction false} PrintedNone()
    ensures Printed([]) == []
  {
  }

  lemma {:induction false} PrintedNext(s: seq<Byte>)
    requires s != []
    ensures Printed(s) == if s[0] < 0x80 then Escape(s[0]) + Printed(s[1..])
                          else s[..RuneSize(s)] + Printed(s[RuneSize(s)..])
  {
  }

  // ---------------------------------------------------------------- the parser

  function Prepend(bytes: seq<Byte>, r: Option<seq<Byte>>): Option<seq<Byte>> {
    if r.Some? then Some(bytes + r.value) else None
  }

  /** The value of a hexadecimal digit, or 16. */
  function HexValue(d: Byte): Byte {
    if 0x30 <= d <= 0x39 then d - 0x30
    else if 0x61 <= d <= 0x66 then d - 0x57
    else if 0x41 <= d <= 0x46 then d - 0x37
    else 16
  }

  predicate AllHex(s: seq<Byte>) {
    forall i :: 0 <= i < |s| ==> HexValue(s[i]) < 16
  }

  /** The byte that two hexadecimal digits spell. */
  function HexByte(hi: Byte, lo: Byte): Byte {
    (HexValue(hi) << 4) | HexValue(lo)
  }

  // The bytes of a UTF-8 form, from the bytes of the code point.

  function Lead2(hi: Byte, lo: Byte): Byte {
    0xc0 | (hi << 2) | (lo >> 6)
  }

  function Lead3(hi: Byte): Byte {
    0xe0 | (hi >> 4)
  }

  function Lead4(plane: Byte): Byte {
    0xf0 | (plane >> 2)
  }

  function Upper(plane: Byte, hi: Byte): Byte {
    0x80 | ((plane & 3) << 4) | (hi >> 4)
  }

  function Middle(hi: Byte, lo: Byte): Byte {
    0x80 | ((hi & 0xf) << 2) | (lo >> 6)
  }

  function Lower(lo: Byte): Byte {
    0x80 | (lo & 0x3f)
  }

  /** The UTF-8 form of the code point with the given three bytes; surrogates and what is above 10ffff have none. */
  function Encoded(plane: Byte, hi: Byte, lo: Byte): Option<seq<Byte>> {
    if plane == 0 && hi == 0 && lo < 0x80 then Some([lo])
    else if plane == 0 && hi < 8 then Some([Lead2(hi, lo), Lower(lo)])
    else if plane == 0 && 0xd8 <= hi <= 0xdf then None
    else if plane == 0 then Some([Lead3(hi), Middle(hi, lo), Lower(lo)])
    else if plane <= 0x10 then Some([Lead4(plane), Upper(plane, hi), Middle(hi, lo), Lower(lo)])
    else None
  }

  /** The one-letter escapes of a Go string literal. */
  function Letter(c: Byte): seq<Byte> {
    if c == 0x61 then [0x07] else if c == 0x62 then [0x08] else if c == 0x66 then [0x0c]
    else if c == 0x6e then [NEWLINE] else if c == 0x72 then [0x0d] else if c == 0x74 then [0x09]
    else if c == 0x76 then [0x0b] else if c == BACKSLASH then [BACKSLASH] else if c == QUOTE then [QUOTE]
    else []
  }

  predicate IsOctal(b: Byte) {
    0x30 <= b <= 0x37
  }

  /** How long the escape at the front of s is, by its second byte. */
  function EscapeLength(c: Byte): nat {
    if c == 0x75 then 6 else if c == 0x55 then 10 else if c == 0x78 || IsOctal(c) then 4 else 2
  }

  /** What a whole escape of a Go string literal stands for: \u, \U, \x, three octal digits, or one letter. */
  function Unescaped(e: seq<Byte>): Option<seq<Byte>>
    requires |e| >= 2 && |e| == EscapeLength(e[1])
  {
    var c := e[1];
    if c == 0x75 then
      if AllHex(e[2..]) then Encoded(0, HexByte(e[2], e[3]), HexByte(e[4], e[5])) else None
    else if c == 0x55 then
      if AllHex(e[2..]) && HexByte(e[2], e[3]) == 0 then
        Encoded(HexByte(e[4], e[5]), HexByte(e[6], e[7]), HexByte(e[8], e[9]))
      else None
    else if c == 0x78 then
      if AllHex(e[2..]) then Some([HexByte(e[2], e[3])]) else None
    else if IsOctal(c) then
      if c <= 0x33 && IsOctal(e[2]) && IsOctal(e[3]) then
        Some([((c - 0x30) << 6) | ((e[2] - 0x30) << 3) | (e[3] - 0x30)])
      else None
    else if Letter(c) != [] then Some(Letter(c)) else None
  }

  /** What strconv.Unquote makes of the text between the quotes; nothing if it reports a syntax error. */
  function Unquoted(s: seq<Byte>): Option<seq<Byte>>
    decreases |s|
  {
    if s == [] then Some([])
    else if s[0] == QUOTE || s[0] == NEWLINE then None
    else if s[0] == BACKSLASH then
      if |s| == 1 || |s| < EscapeLength(s[1]) then None
      else
        var n := EscapeLength(s[1]);
        var e := Unescaped(s[..n]);
        if e.Some? then Prepend(e.value, Unquoted(s[n..])) else None
    else if s[0] < 0x80 then Prepend([s[0]], Unquoted(s[1..]))
    else if RuneSize(s) == 1 then Prepend(REPLACEMENT, Unquoted(s[1..]))
    else Prepend(s[..RuneSize(s)], Unquoted(s[RuneSize(s)..]))
  }

  /** U+FFFD, for a byte that is not part of a well-formed sequence. */
  const REPLACEMENT: seq<Byte> := [0xef, 0xbf, 0xbd]

  /** The string is replaced by the parsed text, or left alone with an error. */
  method UnmarshalJSON(s: seq<Byte>, data: seq<Byte>) returns (r: seq<Byte>, ok: bool)
    ensures ok <==> |data| >= 2 && data[0] == QUOTE == data[|data| - 1] && Unquoted(data[1..|data| - 1]).Some?
    ensures r == if ok then Unquoted(data[1..|data| - 1]).value else s
  {
    r, ok := s, false;
    if |data| < 2 || data[0] != QUOTE || data[|data| - 1] != QUOTE {
      return;
    }
    var p := Unquoted(data[1..|data| - 1]);
    if p.Some? {
      r, ok := p.value, true;
    }
  }

  // ---------------------------------------------------------------- the output is a JSON string

  /** The bytes between the quotes, by section 7 of RFC 8259: nothing unescaped that must be escaped, and only escapes
      the grammar has. */
  predicate JsonChars(s: seq<Byte>)
    decreases |s|
  {
    if s == [] then true
    else if s[0] == BACKSLASH then
      && |s| >= 2
      && if s[1] == 0x75 then |s| >= 6 && AllHex(s[2..6]) && JsonChars(s[6..])
         else s[1] in {QUOTE, BACKSLASH, SLASH, 0x62, 0x66, 0x6e, 0x72, 0x74} && JsonChars(s[2..])
    else s[0] >= 0x20 && s[0] != QUOTE && JsonChars(s[1..])
  }

  /** And the bytes are those of characters. */
  predicate IsJsonString(s: seq<Byte>) {
    JsonChars(s) && ValidUtf8(s)
  }

  lemma {:induction false} EscapeIsJson(b: Byte, rest: seq<Byte>)
    requires b < 0x80 && JsonChars(rest)
    ensures JsonChars(Escape(b) + rest)
  {
    var e := Escape(b);
    assert (e + rest)[|e|..] == rest;
    if |e| == 6 {
      assert (e + rest)[2..6] == [0x30, 0x30, HexDigit(b >> 4), HexDigit(b & 0xf)];
      HexRoundTrip(b);
    }
  }

  lemma {:induction false} HexRoundTrip(b: Byte)
    ensures HexValue(HexDigit(b >> 4)) == b >> 4 < 16 && HexValue(HexDigit(b & 0xf)) == b & 0xf < 16
    ensures ((b >> 4) << 4) | (b & 0xf) == b
  {
  }

  lemma {:induction false} HighIsJson(a: seq<Byte>, rest: seq<Byte>)
    requires (forall i :: 0 <= i < |a| ==> a[i] >= 0x80) && JsonChars(rest)
    ensures JsonChars(a + rest)
  {
    hide AllHex;
    if a == [] {
      assert a + rest == rest;
    } else {
      HighIsJson(a[1..], rest);
      assert (a + rest)[1..] == a[1..] + rest;
    }
  }

  lemma {:induction false} RuneIsHigh(s: seq<Byte>)
    requires s != [] && s[0] >= 0x80
    ensures forall i :: 0 <= i < RuneSize(s) ==> s[i] >= 0x80
  {
  }

  /** Whatever the text is, the printer escapes what must be escaped, and in JSON's way. */
  lemma {:induction false} PrintedIsEscaped(s: seq<Byte>)
    ensures JsonChars(Printed(s))
    decreases |s|
  {
    hide JsonChars, Escape, RuneSize;
    if s == [] {
      EmptyIsJson();
    } else if s[0] < 0x80 {
      PrintedIsEscaped(s[1..]);
      EscapeIsJson(s[0], Printed(s[1..]));
    } else {
      var n := RuneSize(s);
      PrintedIsEscaped(s[n..]);
      RuneIsHigh(s);
      HighIsJson(s[..n], Printed(s[n..]));
    }
  }

  lemma {:induction false} EmptyIsJson()
    ensures JsonChars([])
  {
  }

  // ---------------------------------------------------------------- what comes back

  /** The bytes of 0x80 and up at the front of s. */
  function High(s: seq<Byte>): seq<Byte> {
    if s == [] || s[0] < 0x80 then [] else [s[0]] + High(s[1..])
  }

  lemma {:induction false} HighConcat(a: seq<Byte>, b: seq<Byte>)
    requires forall i :: 0 <= i < |a| ==> a[i] >= 0x80
    ensures High(a + b) == a + High(b)
  {
    if a == [] {
      assert a + b == b;
    } else {
      HighConcat(a[1..], b);
      assert (a + b)[1..] == a[1..] + b;
    }
  }

  lemma {:induction false} HighIsPrefix(s: seq<Byte>)
    ensures High(s) <= s && forall i :: 0 <= i < |High(s)| ==> High(s)[i] >= 0x80
    ensures |High(s)| < |s| ==> s[|High(s)|] < 0x80
  {
    if s != [] && s[0] >= 0x80 {
      HighIsPrefix(s[1..]);
    }
  }

  /** The decoder never looks past them. */
  lemma {:induction false} RuneSizeByHigh(s: seq<Byte>, t: seq<Byte>)
    requires s != [] && t != [] && s[0] >= 0x80 && t[0] >= 0x80 && High(s) == High(t)
    ensures RuneSize(s) == RuneSize(t)
  {
    HighIsPrefix(s);
    HighIsPrefix(t);
    var h := High(s);
    assert forall i :: 0 <= i < |h| ==> s[i] == h[i] == t[i];
  }

  lemma {:induction false} HighOfPrinted(s: seq<Byte>)
    ensures High(Printed(s)) == High(s)
    decreases |s|
  {
    if s != [] {
      if s[0] < 0x80 {
        assert Printed(s)[0] == Escape(s[0])[0] < 0x80;
      } else {
        var n := RuneSize(s);
        RuneIsHigh(s);
        HighOfPrinted(s[n..]);
        HighConcat(s[..n], Printed(s[n..]));
        HighConcat(s[..n], s[n..]);
        assert s == s[..n] + s[n..];
      }
    }
  }

  lemma {:induction false} AsciiRun(a: seq<Byte>, rest: seq<Byte>)
    requires forall i :: 0 <= i < |a| ==> a[i] < 0x80
    ensures ValidUtf8(a + rest) <==> ValidUtf8(rest)
  {
    if a == [] {
      assert a + rest == rest;
    } else {
      AsciiRun(a[1..], rest);
      assert (a + rest)[1..] == a[1..] + rest;
    }
  }

  lemma {:induction false} EscapeIsAscii(b: Byte)
    requires b < 0x80
    ensures forall i :: 0 <= i < |Escape(b)| ==> Escape(b)[i] < 0x80
  {
  }

  lemma {:induction false} PrintedUtf8(s: seq<Byte>)
    ensures ValidUtf8(Printed(s)) <==> ValidUtf8(s)
    decreases |s|
  {
    if s != [] {
      if s[0] < 0x80 {
        hide RuneSize, Escape;
        PrintedUtf8(s[1..]);
        EscapeIsAscii(s[0]);
        AsciiRun(Escape(s[0]), Printed(s[1..]));
      } else {
        hide RuneSize, Escape;
        var n := RuneSize(s);
        var p := Printed(s);
        PrintedUtf8(s[n..]);
        HighOfPrinted(s);
        assert p[0] == s[0] && p[n..] == Printed(s[n..]);
        RuneSizeByHigh(p, s);
      }
    }
  }

  /** The output is a JSON string exactly when the text is valid UTF-8. */
  lemma {:induction false} PrintedIsJson(s: seq<Byte>)
    ensures IsJsonString(Printed(s)) <==> ValidUtf8(s)
  {
    PrintedIsEscaped(s);
    PrintedUtf8(s);
  }

  /** The text with U+FFFD for every byte that is not part of a well-formed sequence. */
  function Scrubbed(s: seq<Byte>): seq<Byte>
    decreases |s|
  {
    if s == [] then []
    else if s[0] < 0x80 then [s[0]] + Scrubbed(s[1..])
    else if RuneSize(s) == 1 then REPLACEMENT + Scrubbed(s[1..])
    else s[..RuneSize(s)] + Scrubbed(s[RuneSize(s)..])
  }

  lemma {:induction false} EscapeAtFront(e: seq<Byte>, rest: seq<Byte>)
    requires |e| >= 2 && e[0] == BACKSLASH && |e| == EscapeLength(e[1]) && Unescaped(e).Some?
    ensures Unquoted(e + rest) == Prepend(Unescaped(e).value, Unquoted(rest))
  {
    hide RuneSize, Unescaped;
    assert (e + rest)[..|e|] == e && (e + rest)[|e|..] == rest;
  }

  lemma {:induction false} EscapeParses(b: Byte, rest: seq<Byte>)
    requires b < 0x80
    ensures Unquoted(Escape(b) + rest) == Prepend([b], Unquoted(rest))
  {
    var e := Escape(b);
    if |e| > 1 {
      HexRoundTrip(b);
      EscapeAtFront(e, rest);
    } else {
      hide RuneSize;
      assert (e + rest)[1..] == rest;
    }
  }

  lemma {:induction false} RuneParses(s: seq<Byte>, rest: seq<Byte>)
    requires s != [] && s[0] >= 0x80 && High(s[..RuneSize(s)] + rest) == High(s)
    ensures Unquoted(s[..RuneSize(s)] + rest)
            == Prepend(if RuneSize(s) == 1 then REPLACEMENT else s[..RuneSize(s)], Unquoted(rest))
  {
    var n := RuneSize(s);
    var t := s[..n] + rest;
    RuneSizeByHigh(t, s);
    assert t[..n] == s[..n] && t[n..] == rest;
  }

  /** Parsing what was printed gives the text back with its malformed bytes replaced. */
  lemma {:induction false} UnquotedPrinted(s: seq<Byte>)
    ensures Unquoted(Printed(s)) == Some(Scrubbed(s))
    decreases |s|
  {
    hide Unquoted, Escape, RuneSize;
    if s == [] {
      UnquotedEmpty();
    } else if s[0] < 0x80 {
      UnquotedPrinted(s[1..]);
      EscapeParses(s[0], Printed(s[1..]));
    } else {
      var n := RuneSize(s);
      UnquotedPrinted(s[n..]);
      HighOfPrinted(s);
      RuneParses(s, Printed(s[n..]));
      if n == 1 {
        assert s[n..] == s[1..];
      }
    }
  }

  lemma {:induction false} UnquotedEmpty()
    ensures Unquoted([]) == Some([])
  {
  }

  lemma {:induction false} ScrubbedLength(s: seq<Byte>)
    ensures |Scrubbed(s)| >= |s| && (|Scrubbed(s)| == |s| <==> ValidUtf8(s))
    decreases |s|
  {
    hide RuneSize;
    if s != [] {
      ScrubbedLength(s[if s[0] < 0x80 then 1 else RuneSize(s)..]);
    }
  }

  lemma {:induction false} ScrubbedValid(s: seq<Byte>)
    requires ValidUtf8(s)
    ensures Scrubbed(s) == s
    decreases |s|
  {
    hide RuneSize;
    if s != [] {
      var n := if s[0] < 0x80 then 1 else RuneSize(s);
      ScrubbedValid(s[n..]);
      assert s == s[..n] + s[n..];
    }
  }

  /** The round trip gives the text back exactly when it is valid UTF-8. */
  lemma {:induction false} RoundTrip(s: seq<Byte>)
    ensures Unquoted(Printed(s)) == Some(s) <==> ValidUtf8(s)
  {
    UnquotedPrinted(s);
    ScrubbedLength(s);
    if ValidUtf8(s) {
      ScrubbedValid(s);
    }
  }

  // ---------------------------------------------------------------- which JSON strings are accepted

  /** None of the escapes is of a solidus or of a surrogate, d800 to dfff. */
  predicate NoForeignEscape(s: seq<Byte>)
    decreases |s|
  {
    if |s| < 2 then true
    else if s[0] != BACKSLASH then NoForeignEscape(s[1..])
    else if s[1] == 0x75 then |s| < 6 || (!IsSurrogate(s[2], s[3]) && NoForeignEscape(s[6..]))
    else s[1] != SLASH && NoForeignEscape(s[2..])
  }

  /** A \u escape whose first two digits are these is of a surrogate: d8 to df. */
  predicate IsSurrogate(d: Byte, e: Byte) {
    HexValue(d) == 0xd && 0x8 <= HexValue(e) < 16
  }

  lemma {:induction false} SurrogateDigits(d: Byte, e: Byte)
    requires HexValue(d) < 16 && HexValue(e) < 16
    ensures IsSurrogate(d, e) <==> 0xd8 <= HexByte(d, e) <= 0xdf
  {
  }

  /** None of the escapes is one that only Go has - \a, \v, \x, \U, octal - and no control character is unescaped. */
  predicate NothingOfGo(s: seq<Byte>)
    decreases |s|
  {
    if s == [] then true
    else if s[0] == BACKSLASH then
      && 2 <= |s| && EscapeLength(s[1]) <= |s| && !OnlyGo(s[1]) && NothingOfGo(s[EscapeLength(s[1])..])
    else s[0] >= 0x20 && NothingOfGo(s[1..])
  }

  predicate OnlyGo(c: Byte) {
    c == 0x61 || c == 0x76 || c == 0x78 || c == 0x55 || IsOctal(c)
  }

  lemma {:induction false} HighRunIsPlain(a: seq<Byte>, rest: seq<Byte>)
    requires forall i :: 0 <= i < |a| ==> a[i] >= 0x80
    ensures JsonChars(a + rest) <==> JsonChars(rest)
    ensures NoForeignEscape(a + rest) <==> NoForeignEscape(rest)
    ensures NothingOfGo(a + rest) <==> NothingOfGo(rest)
  {
    if a == [] {
      assert a + rest == rest;
    } else {
      HighRunIsPlain(a[1..], rest);
      assert (a + rest)[1..] == a[1..] + rest;
    }
  }

  /** A JSON escape is one of a Go string literal, with the exception of those two kinds. */
  lemma {:induction false} JsonEscape(s: seq<Byte>)
    requires s != [] && s[0] == BACKSLASH && JsonChars(s)
    ensures |s| >= 2 && EscapeLength(s[1]) <= |s|
    ensures JsonChars(s[EscapeLength(s[1])..])
    ensures NoForeignEscape(s) <==>
              Unescaped(s[..EscapeLength(s[1])]).Some? && NoForeignEscape(s[EscapeLength(s[1])..])
  {
    if s[1] == 0x75 {
      assert s[..6][2..] == s[2..6];
      assert HexValue(s[2..6][0]) < 16 && HexValue(s[2..6][1]) < 16;
      SurrogateDigits(s[2], s[3]);
    }
  }

  /** Of the strings that section 7 of RFC 8259 allows exactly those with an escaped solidus or an escaped surrogate
      are rejected. */
  lemma {:induction false} AcceptedIff(s: seq<Byte>)
    requires JsonChars(s)
    ensures Unquoted(s).Some? <==> NoForeignEscape(s)
    decreases |s|
  {
    hide RuneSize, Unescaped;
    if s != [] {
      if s[0] == BACKSLASH {
        JsonEscape(s);
        AcceptedIff(s[EscapeLength(s[1])..]);
      } else if s[0] < 0x80 {
        AcceptedIff(s[1..]);
      } else {
        var n := RuneSize(s);
        RuneIsHigh(s);
        HighRunIsPlain(s[..n], s[n..]);
        assert s == s[..n] + s[n..];
        AcceptedIff(s[n..]);
      }
    }
  }

  /** An escape of a Go string literal is one of JSON, with the exception of those that only Go has. */
  lemma {:induction false} GoEscape(s: seq<Byte>)
    requires |s| >= 2 && s[0] == BACKSLASH && EscapeLength(s[1]) <= |s|
    requires Unescaped(s[..EscapeLength(s[1])]).Some?
    ensures JsonChars(s) <==> !OnlyGo(s[1]) && JsonChars(s[EscapeLength(s[1])..])
    ensures NothingOfGo(s) <==> !OnlyGo(s[1]) && NothingOfGo(s[EscapeLength(s[1])..])
  {
    if s[1] == 0x75 {
      assert s[..6][2..] == s[2..6];
    }
  }

  /** The other way round: of what is accepted exactly the texts without anything of Go's own, and in valid UTF-8, are
      JSON strings. */
  lemma {:induction false} AcceptedIsJson(s: seq<Byte>)
    requires Unquoted(s).Some?
    ensures IsJsonString(s) <==> NothingOfGo(s) && ValidUtf8(s)
  {
    AcceptedIsEscaped(s);
  }

  lemma {:induction false} AcceptedIsEscaped(s: seq<Byte>)
    requires Unquoted(s).Some?
    ensures JsonChars(s) <==> NothingOfGo(s)
    decreases |s|
  {
    hide RuneSize, Unescaped;
    if s != [] {
      if s[0] == BACKSLASH {
        GoEscape(s);
        AcceptedIsEscaped(s[EscapeLength(s[1])..]);
      } else if s[0] < 0x80 {
        AcceptedIsEscaped(s[1..]);
      } else {
        var n := RuneSize(s);
        RuneIsHigh(s);
        HighRunIsPlain(s[..n], s[n..]);
        assert s == s[..n] + s[n..];
        AcceptedIsEscaped(s[n..]);
      }
    }
  }

  /** One of each kind that is accepted and no JSON: \x41, an unescaped tab, and a byte that is no character. */
  lemma {:induction false} AcceptedNotJson()
    ensures var hex := [BACKSLASH, 0x78, 0x34, 0x31]; Unquoted(hex) == Some([0x41]) && !IsJsonString(hex)
    ensures Unquoted([0x09]) == Some([0x09]) && !IsJsonString([0x09])
    ensures Unquoted([0xff]) == Some(REPLACEMENT) && !IsJsonString([0xff])
  {
    var hex := [BACKSLASH, 0x78, 0x34, 0x31];
    assert hex[..4] == hex && hex[2..] == [0x34, 0x31] && hex[4..] == [];
    assert AllHex([0x34, 0x31]) && HexByte(0x34, 0x31) == 0x41;
    assert HexValue(0x34) == 4 && HexValue(0x31) == 1;
    UnquotedEmpty();
    assert [0x41 as Byte] + [] == [0x41] && [0x09 as Byte] + [] == [0x09] && REPLACEMENT + [] == REPLACEMENT;
    assert [0x09 as Byte][1..] == [] && [0xff as Byte][1..] == [];
    assert Unescaped(hex) == Some([0x41]);
  }

  // ---------------------------------------------------------------- what the escapes stand for

  lemma {:induction false} LowerIs(lo: Byte)
    ensures Num(Lower(lo)) == 0x80 + Num(lo) % 0x40
  {
  }

  lemma {:induction false} Low4(x: Byte)
    ensures Num(x & 0xf) == Num(x) % 0x10 && x & 0xf < 16
  {
  }

  lemma {:induction false} Joined(x: Byte, lo: Byte)
    ensures x < 8 ==> Num(0xc0 | (x << 2) | (lo >> 6)) == 0xc0 + 4 * Num(x) + Num(lo) / 0x40
    ensures x < 16 ==> Num(0x80 | (x << 2) | (lo >> 6)) == 0x80 + 4 * Num(x) + Num(lo) / 0x40
  {
  }

  lemma {:induction false} MiddleIs(hi: Byte, lo: Byte)
    ensures Num(Middle(hi, lo)) == 0x80 + 4 * (Num(hi) % 0x10) + Num(lo) / 0x40
    ensures hi < 8 ==> Num(Lead2(hi, lo)) == 0xc0 + 4 * Num(hi) + Num(lo) / 0x40
    ensures Num(Lead3(hi)) == 0xe0 + Num(hi) / 0x10
  {
    Joined(hi, lo);
    Joined(hi & 0xf, lo);
    Low4(hi);
    assert Num(0xe0 | (hi >> 4)) == 0xe0 + Num(hi) / 0x10;
  }

  lemma {:induction false} UpperIs(plane: Byte, hi: Byte)
    requires plane <= 0x10
    ensures Num(Lead4(plane)) == 0xf0 + Num(plane) / 4
    ensures Num(Upper(plane, hi)) == 0x80 + 0x10 * (Num(plane) % 4) + Num(hi) / 0x10
  {
    assert Num(plane & 3) == Num(plane) % 4 && plane & 3 < 4;
    PlaneAndHigh(plane & 3, hi);
  }

  lemma {:induction false} PlaneAndHigh(x: Byte, hi: Byte)
    requires x < 4
    ensures Num(0x80 | (x << 4) | (hi >> 4)) == 0x80 + 0x10 * Num(x) + Num(hi) / 0x10
  {
  }

  /** The code point with these three bytes. */
  function PointOf(plane: Byte, hi: Byte, lo: Byte): int {
    Num(plane) * 0x1_0000 + Num(hi) * 0x100 + Num(lo)
  }

  // Six bits at a time.

  lemma {:induction false} LastBits(p: int, h: int, l: int, c: int)
    requires 0 <= h < 0x100 && 0 <= l < 0x100 && 0 <= p && c == p * 0x1_0000 + h * 0x100 + l
    ensures c / 0x40 == 0x400 * p + 4 * h + l / 0x40 && c % 0x40 == l % 0x40
  {
  }

  lemma {:induction false} MiddleBits(p: int, h: int, m: int, c: int)
    requires 0 <= h < 0x100 && 0 <= m < 4 && 0 <= p && c == 0x400 * p + 4 * h + m
    ensures c / 0x40 == 0x10 * p + h / 0x10 && c % 0x40 == 4 * (h % 0x10) + m
  {
  }

  lemma {:induction false} FirstBits(p: int, m: int, c: int)
    requires 0 <= m < 0x10 && 0 <= p && c == 0x10 * p + m
    ensures c / 0x40 == p / 4 && c % 0x40 == 0x10 * (p % 4) + m
  {
  }

  // The forms by the bytes of the code point, as numbers.

  lemma {:induction false} TwoForm(h: int, l: int)
    requires 0 <= h < 8 && 0 <= l < 0x100 && h * 0x100 + l >= 0x80
    ensures Form(h * 0x100 + l) == [0xc0 + 4 * h + l / 0x40, 0x80 + l % 0x40] && IsScalar(h * 0x100 + l)
  {
    LastBits(0, h, l, h * 0x100 + l);
  }

  lemma {:induction false} ThreeForm(h: int, l: int)
    requires 8 <= h < 0x100 && 0 <= l < 0x100
    ensures Form(h * 0x100 + l) == [0xe0 + h / 0x10, 0x80 + 4 * (h % 0x10) + l / 0x40, 0x80 + l % 0x40]
    ensures IsScalar(h * 0x100 + l) <==> !(0xd8 <= h <= 0xdf)
  {
    var c := h * 0x100 + l;
    LastBits(0, h, l, c);
    MiddleBits(0, h, l / 0x40, c / 0x40);
  }

  function FourNumbers(p: int, h: int, l: int): seq<int> {
    [0xf0 + p / 4, 0x80 + 0x10 * (p % 4) + h / 0x10, 0x80 + 4 * (h % 0x10) + l / 0x40, 0x80 + l % 0x40]
  }

  lemma {:induction false} FourForm(p: int, h: int, l: int)
    requires 1 <= p <= 0x10 && 0 <= h < 0x100 && 0 <= l < 0x100
    ensures var c := p * 0x1_0000 + h * 0x100 + l; Form(c) == FourNumbers(p, h, l) && IsScalar(c)
  {
    var c := p * 0x1_0000 + h * 0x100 + l;
    LastBits(p, h, l, c);
    MiddleBits(p, h, l / 0x40, c / 0x40);
    FirstBits(p, h / 0x10, c / 0x40 / 0x40);
  }

  // And the bytes themselves.

  lemma {:induction false} EncodedTwo(hi: Byte, lo: Byte)
    requires hi < 8 && !(hi == 0 && lo < 0x80)
    ensures IsForm([Lead2(hi, lo), Lower(lo)], PointOf(0, hi, lo)) && IsScalar(PointOf(0, hi, lo))
  {
    hide Lead2, Lower, Form, IsScalar, Num;
    LowerIs(lo);
    MiddleIs(hi, lo);
    SmallPoint(hi, lo);
    HighRange(hi);
    TwoForm(Num(hi), Num(lo));
  }

  lemma {:induction false} SmallPoint(hi: Byte, lo: Byte)
    requires hi < 8 && !(hi == 0 && lo < 0x80)
    ensures 0 <= Num(hi) < 8 && 0 <= Num(lo) < 0x100 && Num(hi) * 0x100 + Num(lo) >= 0x80
  {
    ByteOrder(8, hi);
    ByteOrder(0x80, lo);
    HiIsZero(hi);
  }

  lemma {:induction false} HiIsZero(hi: Byte)
    ensures hi == 0 <==> Num(hi) == 0
  {
  }

  lemma {:induction false} HighRange(hi: Byte)
    ensures Num(0) == 0 && (hi >= 8 <==> Num(hi) >= 8) && (0xd8 <= hi <= 0xdf <==> 0xd8 <= Num(hi) <= 0xdf)
  {
    ByteOrder(8, hi);
    ByteOrder(0xd8, hi);
    ByteOrder(hi, 0xdf);
  }

  lemma {:induction false} EncodedThree(hi: Byte, lo: Byte)
    requires hi >= 8
    ensures IsForm([Lead3(hi), Middle(hi, lo), Lower(lo)], PointOf(0, hi, lo))
    ensures IsScalar(PointOf(0, hi, lo)) <==> !(0xd8 <= hi <= 0xdf)
  {
    hide Lead3, Middle, Lower, Form, IsScalar, Num;
    LowerIs(lo);
    MiddleIs(hi, lo);
    HighRange(hi);
    ThreeForm(Num(hi), Num(lo));
  }

  lemma {:induction false} EncodedFour(plane: Byte, hi: Byte, lo: Byte)
    requires 1 <= plane <= 0x10
    ensures IsForm([Lead4(plane), Upper(plane, hi), Middle(hi, lo), Lower(lo)], PointOf(plane, hi, lo))
    ensures IsScalar(PointOf(plane, hi, lo))
  {
    hide Lead4, Upper, Middle, Lower, Form, IsForm, IsScalar, Num, FourNumbers;
    PlaneRange(plane);
    FourBytesAre(plane, hi, lo);
    FourForm(Num(plane), Num(hi), Num(lo));
    IsFormOfFour(Lead4(plane), Upper(plane, hi), Middle(hi, lo), Lower(lo), PointOf(plane, hi, lo));
  }

  lemma {:induction false} FourBytesAre(plane: Byte, hi: Byte, lo: Byte)
    requires plane <= 0x10
    ensures [Num(Lead4(plane)), Num(Upper(plane, hi)), Num(Middle(hi, lo)), Num(Lower(lo))]
            == FourNumbers(Num(plane), Num(hi), Num(lo))
  {
    hide Lead4, Upper, Middle, Lower, Num;
    LowerIs(lo);
    MiddleIs(hi, lo);
    UpperIs(plane, hi);
  }

  lemma {:induction false} IsFormOfFour(a: Byte, b: Byte, d: Byte, e: Byte, c: int)
    requires Form(c) == [Num(a), Num(b), Num(d), Num(e)]
    ensures IsForm([a, b, d, e], c)
  {
    hide Form, Num;
  }

  lemma {:induction false} PlaneRange(plane: Byte)
    requires 1 <= plane <= 0x10
    ensures 1 <= Num(plane) <= 0x10
  {
    ByteOrder(1, plane);
    ByteOrder(plane, 0x10);
  }

  lemma {:induction false} EncodedOne(lo: Byte)
    requires lo < 0x80
    ensures IsForm([lo], PointOf(0, 0, lo)) && IsScalar(PointOf(0, 0, lo))
  {
    ByteOrder(0x80, lo);
  }

  lemma {:induction false} EncodedNone(plane: Byte, hi: Byte, lo: Byte)
    requires plane > 0x10
    ensures !IsScalar(PointOf(plane, hi, lo))
  {
    ByteOrder(plane, 0x10);
  }

  /** The code points that are encoded are the scalar values, each as its own UTF-8 form. */
  lemma {:induction false} EncodedIsForm(plane: Byte, hi: Byte, lo: Byte)
    ensures var (c, r) := (PointOf(plane, hi, lo), Encoded(plane, hi, lo));
            && (r.Some? <==> IsScalar(c))
            && (r.Some? ==> IsRune(r.value) && IsForm(r.value, c) && Point(r.value) == c)
  {
    hide IsForm, IsScalar, PointOf, Point, IsRune;
    var (c, r) := (PointOf(plane, hi, lo), Encoded(plane, hi, lo));
    if plane > 0x10 {
      EncodedNone(plane, hi, lo);
    } else if plane > 0 {
      EncodedFour(plane, hi, lo);
    } else if hi >= 8 {
      EncodedThree(hi, lo);
    } else if hi == 0 && lo < 0x80 {
      EncodedOne(lo);
    } else {
      EncodedTwo(hi, lo);
    }
    if r.Some? {
      FormIsRune(r.value, c);
      PointOfForm(r.value, c);
    }
  }

  // ---------------------------------------------------------------- what a text stands for

  /** A hexadecimal digit as a number, or -1. */
  function Digit(d: Byte): int {
    var n := Num(d);
    if 48 <= n <= 57 then n - 48 else if 65 <= n <= 70 then n - 55 else if 97 <= n <= 102 then n - 87 else -1
  }

  /** The number that these digits spell. */
  function Hex(s: seq<Byte>): int {
    if s == [] then 0 else 16 * Hex(s[..|s| - 1]) + Digit(s[|s| - 1])
  }

  lemma {:induction false} DigitIs(d: Byte)
    ensures if HexValue(d) < 16 then Num(HexValue(d)) == Digit(d) else Digit(d) == -1
  {
  }

  lemma {:induction false} JoinedDigits(x: Byte, y: Byte)
    requires x < 16 && y < 16
    ensures Num((x << 4) | y) == 16 * Num(x) + Num(y)
  {
  }

  lemma {:induction false} HexByteIs(d: Byte, e: Byte)
    requires HexValue(d) < 16 && HexValue(e) < 16
    ensures Num(HexByte(d, e)) == 16 * Digit(d) + Digit(e)
  {
    JoinedDigits(HexValue(d), HexValue(e));
    DigitIs(d);
    DigitIs(e);
  }

  lemma {:induction false} HexNext(s: seq<Byte>, d: Byte)
    ensures Hex(s + [d]) == 16 * Hex(s) + Digit(d)
  {
    assert (s + [d])[..|s|] == s;
  }

  lemma {:induction false} HexPair(s: seq<Byte>, d: Byte, e: Byte)
    requires HexValue(d) < 16 && HexValue(e) < 16
    ensures Hex(s + [d, e]) == 256 * Hex(s) + Num(HexByte(d, e))
  {
    hide Digit, Hex, HexValue, HexByte, Num;
    HexNext(s, d);
    HexNext(s + [d], e);
    assert s + [d, e] == (s + [d]) + [e];
    HexByteIs(d, e);
  }

  lemma {:induction false} HexOfNone()
    ensures Hex([]) == 0
  {
  }

  /** \u: the code point of its digits, unless that is a surrogate. */
  lemma {:induction false} ShortEscape(e: seq<Byte>)
    requires |e| == 6 && e[1] == 0x75
    ensures var r := Unescaped(e);
            && (r.Some? <==> AllHex(e[2..]) && IsScalar(Hex(e[2..])))
            && (r.Some? ==> IsRune(r.value) && Point(r.value) == Hex(e[2..]))
  {
    hide Encoded, IsScalar, Hex, HexByte, HexValue, IsRune, Point, Num;
    if AllHex(e[2..]) {
      assert HexValue(e[2..][0]) < 16 && HexValue(e[2..][1]) < 16;
      assert HexValue(e[2..][2]) < 16 && HexValue(e[2..][3]) < 16;
      assert e[2..] == ([] + [e[2], e[3]]) + [e[4], e[5]];
      HexOfNone();
      HexPair([], e[2], e[3]);
      HexPair([] + [e[2], e[3]], e[4], e[5]);
      EncodedIsForm(0, HexByte(e[2], e[3]), HexByte(e[4], e[5]));
      HighRange(0);
    }
  }

  /** \U: the same of eight digits. */
  lemma {:induction false} LongEscape(e: seq<Byte>)
    requires |e| == 10 && e[1] == 0x55
    ensures var r := Unescaped(e);
            && (r.Some? <==> AllHex(e[2..]) && IsScalar(Hex(e[2..])))
            && (r.Some? ==> IsRune(r.value) && Point(r.value) == Hex(e[2..]))
  {
    hide Encoded, Hex, HexByte, HexValue, IsRune, Point, Num;
    if AllHex(e[2..]) {
      assert HexValue(e[2..][0]) < 16 && HexValue(e[2..][1]) < 16;
      assert HexValue(e[2..][2]) < 16 && HexValue(e[2..][3]) < 16;
      assert HexValue(e[2..][4]) < 16 && HexValue(e[2..][5]) < 16;
      assert HexValue(e[2..][6]) < 16 && HexValue(e[2..][7]) < 16;
      assert e[2..] == ((([] + [e[2], e[3]]) + [e[4], e[5]]) + [e[6], e[7]]) + [e[8], e[9]];
      HexOfNone();
      HexPair([], e[2], e[3]);
      HexPair([] + [e[2], e[3]], e[4], e[5]);
      HexPair([] + [e[2], e[3]] + [e[4], e[5]], e[6], e[7]);
      HexPair([] + [e[2], e[3]] + [e[4], e[5]] + [e[6], e[7]], e[8], e[9]);
      EncodedIsForm(HexByte(e[4], e[5]), HexByte(e[6], e[7]), HexByte(e[8], e[9]));
      ZeroByte(HexByte(e[2], e[3]));
    }
  }

  lemma {:induction false} ZeroByte(b: Byte)
    ensures b == 0 <==> Num(b) == 0
  {
  }

  /** \x: the byte that its two digits spell. */
  lemma {:induction false} ByteEscape(e: seq<Byte>)
    requires |e| == 4 && e[1] == 0x78
    ensures var r := Unescaped(e);
            && (r.Some? <==> AllHex(e[2..]))
            && (r.Some? ==> |r.value| == 1 && Num(r.value[0]) == Hex(e[2..]))
  {
    hide Hex, HexByte, HexValue, Num;
    if AllHex(e[2..]) {
      assert HexValue(e[2..][0]) < 16 && HexValue(e[2..][1]) < 16;
      assert e[2..] == [] + [e[2], e[3]];
      HexOfNone();
      HexPair([], e[2], e[3]);
    }
  }

  /** An octal digit as a number, or -1. */
  function OctalDigit(d: Byte): int {
    if 48 <= Num(d) <= 55 then Num(d) - 48 else -1
  }

  lemma {:induction false} OctalDigitIs(d: Byte)
    ensures IsOctal(d) <==> OctalDigit(d) >= 0
    ensures IsOctal(d) ==> d - 0x30 < 8 && Num(d - 0x30) == OctalDigit(d)
    ensures d <= 0x33 && IsOctal(d) <==> 0 <= OctalDigit(d) < 4
    ensures d <= 0x33 && IsOctal(d) ==> d - 0x30 < 4
  {
  }

  lemma {:induction false} JoinedOctal(x: Byte, y: Byte, z: Byte)
    requires x < 4 && y < 8 && z < 8
    ensures Num((x << 6) | (y << 3) | z) == 64 * Num(x) + 8 * Num(y) + Num(z)
  {
  }

  /** Three octal digits: the byte they spell, if it is one. */
  lemma {:induction false} OctalEscape(e: seq<Byte>)
    requires |e| == 4 && IsOctal(e[1])
    ensures var (r, x, y, z) := (Unescaped(e), OctalDigit(e[1]), OctalDigit(e[2]), OctalDigit(e[3]));
            && (r.Some? <==> x >= 0 && y >= 0 && z >= 0 && 64 * x + 8 * y + z < 256)
            && (r.Some? ==> |r.value| == 1 && Num(r.value[0]) == 64 * x + 8 * y + z)
  {
    OctalDigitIs(e[1]);
    OctalDigitIs(e[2]);
    OctalDigitIs(e[3]);
    OctalBound(e[2]);
    OctalBound(e[3]);
    if e[1] <= 0x33 && IsOctal(e[2]) && IsOctal(e[3]) {
      JoinedOctal(e[1] - 0x30, e[2] - 0x30, e[3] - 0x30);
    }
    hide OctalDigit, IsOctal, Num;
  }

  lemma {:induction false} OctalBound(d: Byte)
    ensures OctalDigit(d) < 8
  {
  }

  /** The letters of a Go string literal and of a JSON string, as code points. */
  function LetterPoint(c: int): int {
    if c == 97 then 7 else if c == 98 then 8 else if c == 116 then 9 else if c == 110 then 10 else if c == 118 then 11
    else if c == 102 then 12 else if c == 114 then 13 else c
  }

  lemma {:induction false} LetterEscape(e: seq<Byte>)
    requires |e| == 2 && EscapeLength(e[1]) == 2
    ensures var r := Unescaped(e);
            && (r.Some? <==> Num(e[1]) in {97, 98, 102, 110, 114, 116, 118, 92, 34})
            && (r.Some? ==> |r.value| == 1 && Num(r.value[0]) == LetterPoint(Num(e[1])) && IsRune(r.value))
  {
  }

  /** The code points that a JSON string stands for, as long as it escapes no surrogate. */
  function JsonPoints(s: seq<Byte>): seq<int>
    decreases |s|
  {
    if s == [] then []
    else if s[0] == BACKSLASH && |s| >= 6 && s[1] == 0x75 then [Hex(s[2..6])] + JsonPoints(s[6..])
    else if s[0] == BACKSLASH && |s| >= 2 then [LetterPoint(Num(s[1]))] + JsonPoints(s[2..])
    else
      var n := if s[0] < 0x80 then 1 else RuneSize(s);
      [Point(s[..n])] + JsonPoints(s[n..])
  }

  lemma {:induction false} HexIsAscii(d: Byte)
    ensures HexValue(d) < 16 ==> d < 0x80
  {
  }

  /** An escape at the front of a JSON string is one character of the text. */
  lemma {:induction false} EscapeMeans(s: seq<Byte>)
    requires s != [] && s[0] == BACKSLASH && IsJsonString(s) && NoForeignEscape(s)
    ensures |s| >= 2 && EscapeLength(s[1]) <= |s|
    ensures var n := EscapeLength(s[1]);
            && IsJsonString(s[n..]) && NoForeignEscape(s[n..]) && Unescaped(s[..n]).Some?
            && IsRune(Unescaped(s[..n]).value)
            && JsonPoints(s) == [Point(Unescaped(s[..n]).value)] + JsonPoints(s[n..])
  {
    hide Unescaped, RuneSize, Hex, Num, IsScalar, IsRune, LetterPoint, Point, HexValue;
    JsonEscape(s);
    var n := EscapeLength(s[1]);
    if n == 6 {
      assert HexValue(s[2..6][0]) < 16 && HexValue(s[2..6][1]) < 16;
      assert HexValue(s[2..6][2]) < 16 && HexValue(s[2..6][3]) < 16;
      HexIsAscii(s[2]);
      HexIsAscii(s[3]);
      HexIsAscii(s[4]);
      HexIsAscii(s[5]);
      assert s[..6][2..] == s[2..6];
      ShortEscape(s[..6]);
    } else {
      LetterEscape(s[..2]);
      OneByte(Unescaped(s[..2]).value);
    }
    AsciiRun(s[..n], s[n..]);
    assert s == s[..n] + s[n..];
  }

  lemma {:induction false} OneByte(r: seq<Byte>)
    ensures |r| == 1 ==> Point(r) == Num(r[0])
  {
  }

  /** And what is accepted is understood: a JSON string is parsed to the text in UTF-8 of the code points it stands
      for. */
  lemma {:induction false} AcceptedMeans(s: seq<Byte>)
    requires IsJsonString(s) && NoForeignEscape(s)
    ensures var t := Unquoted(s);
            t.Some? && ValidUtf8(t.value) && Decode(t.value) == JsonPoints(s)
    decreases |s|
  {
    hide RuneSize, Unescaped, Point, IsRune, Unquoted, Decode, JsonPoints, ValidUtf8, JsonChars, NoForeignEscape;
    if s == [] {
      NothingMeans();
    } else if s[0] == BACKSLASH {
      EscapeMeans(s);
      EscapeUnquoted(s);
      var n := EscapeLength(s[1]);
      AcceptedMeans(s[n..]);
      RuneThen(Unescaped(s[..n]).value, Unquoted(s[n..]).value);
    } else {
      var n := if s[0] < 0x80 then 1 else RuneSize(s);
      FrontIsRune(s);
      PlainFront(s, n);
      PlainUnquoted(s, n);
      AcceptedMeans(s[n..]);
      RuneThen(s[..n], Unquoted(s[n..]).value);
    }
  }

  lemma {:induction false} PlainUnquoted(s: seq<Byte>, n: nat)
    requires s != [] && s[0] != BACKSLASH && JsonChars(s)
    requires n == (if s[0] < 0x80 then 1 else RuneSize(s)) && IsRune(s[..n])
    ensures Unquoted(s) == Prepend(s[..n], Unquoted(s[n..]))
  {
    assert s == s[..n] + s[n..];
    RuneSizeThen(s[..n], s[n..]);
    assert s[..n][0] == s[0] && s[..1] == [s[0]];
    hide RuneSize, Unescaped;
  }

  lemma {:induction false} NothingMeans()
    ensures Unquoted([]) == Some([]) && ValidUtf8([]) && Decode([]) == JsonPoints([])
  {
  }

  lemma {:induction false} EscapeUnquoted(s: seq<Byte>)
    requires |s| >= 2 && s[0] == BACKSLASH && EscapeLength(s[1]) <= |s| && Unescaped(s[..EscapeLength(s[1])]).Some?
    ensures var n := EscapeLength(s[1]); Unquoted(s) == Prepend(Unescaped(s[..n]).value, Unquoted(s[n..]))
  {
    hide RuneSize, Unescaped;
  }

  /** A character that is not escaped. */
  lemma {:induction false} PlainFront(s: seq<Byte>, n: nat)
    requires s != [] && s[0] != BACKSLASH && JsonChars(s) && NoForeignEscape(s)
    requires n == if s[0] < 0x80 then 1 else RuneSize(s)
    ensures JsonChars(s[n..]) && NoForeignEscape(s[n..])
    ensures JsonPoints(s) == [Point(s[..n])] + JsonPoints(s[n..])
  {
    hide RuneSize, Point;
    if s[0] >= 0x80 {
      RuneIsHigh(s);
      HighRunIsPlain(s[..n], s[n..]);
      assert s == s[..n] + s[n..];
    }
  }

  /** One of each kind: the escaped solidus, and the pair of escapes that JSON has for U+1F600. */
  lemma {:induction false} RejectedJson()
    ensures JsonChars([BACKSLASH, SLASH]) && Unquoted([BACKSLASH, SLASH]) == None
    ensures var pair := [BACKSLASH, 0x75, 0x64, 0x38, 0x33, 0x64, BACKSLASH, 0x75, 0x64, 0x65, 0x30, 0x30];
            JsonChars(pair) && Unquoted(pair) == None
  {
    var pair := [BACKSLASH, 0x75, 0x64, 0x38, 0x33, 0x64, BACKSLASH, 0x75, 0x64, 0x65, 0x30, 0x30];
    var low := [BACKSLASH, 0x75, 0x64, 0x65, 0x30, 0x30];
    assert pair[2..6] == [0x64, 0x38, 0x33, 0x64] && pair[6..] == low;
    assert low[2..6] == [0x64, 0x65, 0x30, 0x30] && low[6..] == [];
    assert AllHex([0x64, 0x38, 0x33, 0x64]) && AllHex([0x64, 0x65, 0x30, 0x30]);
    assert JsonChars(low);
    AcceptedIff(pair);
    AcceptedIff([BACKSLASH, SLASH]);
  }
}
