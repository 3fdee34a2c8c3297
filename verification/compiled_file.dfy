/** The `.rbc` compiled-file container (`Rubinius::CompiledFile`): three
    newline-terminated header lines (magic, version, checksum) followed by
    the marshalled body, which is decoded lazily and memoised. Streams are
    byte strings; a file that cannot be opened for writing is a flag. */
module CompiledFile {
  import opened Wrappers
  import opened Bytes
  import opened Numerals
  import opened Marshal

  /** Ruby's `isspace`: space, tab, newline, vertical tab, form feed,
      carriage return. */
  predicate IsSpace(c: Byte) {
    c == 32 || 9 <= c <= 13
  }

  /** What `String#rstrip` removes: white space and NUL bytes. */
  predicate IsTrailingJunk(c: Byte) {
    IsSpace(c) || c == 0
  }

  /** A string `String#strip` leaves as it is. */
  predicate Trimmed(s: seq<Byte>) {
    |s| == 0 || (!IsSpace(s[0]) && !IsTrailingJunk(s[|s| - 1]))
  }

  function LStrip(s: seq<Byte>): (r: seq<Byte>)
    ensures |r| <= |s| && r == s[|s| - |r|..]
    ensures r == [] || !IsSpace(r[0])
  {
    if s != [] && IsSpace(s[0]) then LStrip(s[1..]) else s
  }

  function RStrip(s: seq<Byte>): (r: seq<Byte>)
    ensures |r| <= |s| && r == s[..|r|]
    ensures r == [] || !IsTrailingJunk(r[|r| - 1])
  {
    if s != [] && IsTrailingJunk(s[|s| - 1]) then RStrip(s[..|s| - 1]) else s
  }

  /** `String#strip`: leading white space off, then trailing white space
      and NULs. */
  function Strip(s: seq<Byte>): (r: seq<Byte>)
    ensures exists i, j :: 0 <= i <= j <= |s| && r == s[i..j]
    ensures Trimmed(r)
  {
    TrimmedInfix(s, LStrip(s), RStrip(LStrip(s)));
    RStrip(LStrip(s))
  }

  /** A prefix `r` of a suffix `l` of `s` is an infix of `s`; when `l` does
      not start with white space and `r` does not end in junk, `r` is
      trimmed. */
  lemma {:induction false} TrimmedInfix(s: seq<Byte>, l: seq<Byte>, r: seq<Byte>)
    requires |l| <= |s| && l == s[|s| - |l|..] && (l == [] || !IsSpace(l[0]))
    requires |r| <= |l| && r == l[..|r|] && (r == [] || !IsTrailingJunk(r[|r| - 1]))
    ensures exists i, j :: 0 <= i <= j <= |s| && r == s[i..j]
    ensures Trimmed(r)
  {
    var i := |s| - |l|;
    forall k | 0 <= k < |r| ensures r[k] == s[i + k] {
      assert r[k] == l[k];
    }
    assert r == s[i..i + |r|];
    if r != [] {
      assert r[0] == l[0];
    }
  }

  /** A trimmed string is a fixed point of `strip`, so `strip` is
      idempotent. */
  lemma {:induction false} StripFixesTrimmed(s: seq<Byte>)
    requires Trimmed(s)
    ensures Strip(s) == s
  {
  }

  lemma {:induction false} StripIdempotent(s: seq<Byte>)
    ensures Strip(Strip(s)) == Strip(s)
  {
    StripFixesTrimmed(Strip(s));
  }

  /** Stripping a trimmed line together with its newline gives the line. */
  lemma {:induction false} StripLine(s: seq<Byte>)
    requires Trimmed(s)
    ensures Strip(s + [Newline]) == s
  {
    var t := s + [Newline];
    if s == [] {
      assert LStrip(t) == LStrip([]);
    } else {
      assert t[0] == s[0];
      assert LStrip(t) == t;
      assert t[|t| - 1] == Newline;
      assert t[..|t| - 1] == s;
      assert RStrip(t) == RStrip(s);
      assert RStrip(s) == s;
    }
  }

  /** `IO#puts` of a string: a newline is added unless it already ends in
      one. */
  function Puts(line: seq<Byte>): (r: seq<Byte>)
    ensures |r| > 0 && r[|r| - 1] == Newline
    ensures |line| <= |r| && r[..|line|] == line
  {
    if |line| > 0 && line[|line| - 1] == Newline then line else line + [Newline]
  }

  /** `IO#gets`: the next line including its newline, or the rest of the
      stream when no newline is left; `nil` at the end of the stream. */
  function Gets(s: seq<Byte>): (r: Option<ParsedBytes>)
    ensures r.None? <==> s == []
  {
    if s == [] then None else Some(NextLine(s))
  }

  /** What `puts` writes, `gets` reads back as one line. */
  lemma {:induction false} GetsAfterPuts(line: seq<Byte>, rest: seq<Byte>)
    requires Newline !in line
    ensures Gets(Puts(line) + rest) == Some(ParsedBytes(line + [Newline], rest))
  {
    assert Puts(line) == line + [Newline];
    LineEndAfter(line, rest);
    var s := line + [Newline] + rest;
    assert s[..|line| + 1] == line + [Newline];
    assert s[|line| + 1..] == rest;
  }

  /** The radix a prefix letter after a leading `0` selects in `Integer()`:
      `0x`, `0b`, `0o`, `0d` in either case. */
  function PrefixRadix(c: Byte): Option<nat> {
    if c == 120 || c == 88 then Some(16)  // 'x' 'X'
    else if c == 98 || c == 66 then Some(2)  // 'b' 'B'
    else if c == 111 || c == 79 then Some(8)  // 'o' 'O'
    else if c == 100 || c == 68 then Some(10)  // 'd' 'D'
    else None
  }

  /** The digits of `s` in `base` as a number. */
  function DigitsIn(s: seq<Byte>, base: nat): (r: Option<nat>)
    requires 2 <= base <= 36
  {
    var ds :- ReadDigits(s, base);
    Some(Numerals.Value(ds, base))
  }

  /** `Integer()` on an unsigned numeral: a radix prefix, a leading `0` for
      octal, or decimal digits. */
  function UnsignedInteger(s: seq<Byte>): Option<nat>
  {
    if |s| >= 2 && s[0] == Zero && PrefixRadix(s[1]).Some? then DigitsIn(s[2..], PrefixRadix(s[1]).value)
    else if |s| >= 2 && s[0] == Zero then DigitsIn(s[1..], 8)
    else DigitsIn(s, 10)
  }

  /** `Kernel#Integer` on a string with an optional sign; `None` where it
      raises `ArgumentError`. */
  function ParseInteger(s: seq<Byte>): (r: Option<int>)
    ensures s == [] ==> r.None?
    ensures s != [] && s[0] == Minus ==>
              (r.Some? <==> UnsignedInteger(s[1..]).Some?)
              && (r.Some? ==> r.value == -(UnsignedInteger(s[1..]).value as int))
    ensures s != [] && s[0] == Plus ==> r == UnsignedInteger(s[1..])
    ensures s != [] && s[0] != Minus && s[0] != Plus ==> r == UnsignedInteger(s)
  {
    if s == [] then None
    else if s[0] == Minus then
      var m :- UnsignedInteger(s[1..]);
      Some(-(m as int))
    else if s[0] == Plus then
      var m :- UnsignedInteger(s[1..]);
      Some(m)
    else
      var m :- UnsignedInteger(s);
      Some(m)
  }

  /** `Integer()` reads back what `to_s` writes. */
  lemma {:induction false} ParseUnsignedNumeral(n: nat)
    ensures UnsignedInteger(Numeral(n, 10)) == Some(n)
  {
    NumeralShape(n, 10);
    ReadNumeral(n, 10);
    var s := Numeral(n, 10);
    if |s| >= 2 {
      assert s[0] != Zero;
    }
  }

  lemma {:induction false} ParseIntegerInvertsToS(i: int)
    ensures ParseInteger(Signed(i, 10)) == Some(i)
  {
    var n: nat := if i < 0 then -i else i;
    NumeralShape(n, 10);
    ParseUnsignedNumeral(n);
    if i < 0 {
      assert Signed(i, 10)[1..] == Numeral(n, 10);
    } else {
      assert Numeral(n, 10)[0] in Numeral(n, 10);
    }
  }

  /** The numeral `to_s` writes is trimmed and has no newline. */
  lemma {:induction false} SignedIsTrimmedLine(i: int)
    ensures Trimmed(Signed(i, 10)) && Newline !in Signed(i, 10)
  {
    var n: nat := if i < 0 then -i else i;
    var ds := Digits(n, 10);
    var s := Signed(i, 10);
    assert forall k :: 0 <= k < |ds| ==> 48 <= DigitChar(ds[k]) < 58;
    assert forall k :: 0 <= k < |s| ==> s[k] == Minus || 48 <= s[k] < 58;
  }

  /** A loaded or freshly built compiled file. `data` is the memoised body,
      `nil` until `body` has read one. */
  datatype File = File(magic: seq<Byte>, version: int, sum: seq<Byte>, stream: seq<Byte>, data: Value)

  datatype LoadError = MissingLine | InvalidVersion(line: seq<Byte>)

  /** `CompiledFile.new(magic, ver, sum)`. */
  function NewFile(magic: seq<Byte>, version: int, sum: seq<Byte>): (r: File)
    ensures !Truthy(r.data)
    ensures Trimmed(magic) && Newline !in magic && Trimmed(sum) && Newline !in sum ==>
              Load(Header(r)) == Ok(r)
  {
    var r := File(magic, version, sum, [], Nil);
    assert Trimmed(magic) && Newline !in magic && Trimmed(sum) && Newline !in sum ==>
             Load(Header(r)) == Ok(r) by {
      if Trimmed(magic) && Newline !in magic && Trimmed(sum) && Newline !in sum {
        LoadHeader(magic, version, sum, []);
        assert Header(r) + [] == Header(r);
      }
    }
    r
  }

  /** `CompiledFile.load`: three header lines, the version through
      `Integer()`; the body is left unread on the stream. */
  function Load(stream: seq<Byte>): (r: Result<File, LoadError>)
    ensures r.Ok? ==> r.value.data == Nil && |r.value.stream| + 3 <= |stream|
  {
    var magic :- ReadLine(stream);
    var version :- ReadLine(magic.rest);
    var v :- ReadVersion(version.bytes);
    var sum :- ReadLine(version.rest);
    Ok(File(Strip(magic.bytes), v, Strip(sum.bytes), sum.rest, Nil))
  }

  /** `stream.gets.strip` before the strip: at the end of the stream `gets`
      gives `nil`, on which `strip` raises. */
  function ReadLine(s: seq<Byte>): (r: Result<ParsedBytes, LoadError>)
    ensures r.Ok? ==> |r.value.rest| < |s|
    ensures r.Err? <==> s == []
  {
    match Gets(s)
    case None => Err(MissingLine)
    case Some(line) => Ok(line)
  }

  /** `Integer(line.strip)`. */
  function ReadVersion(line: seq<Byte>): Result<int, LoadError> {
    match ParseInteger(Strip(line))
    case Some(v) => Ok(v)
    case None => Err(InvalidVersion(Strip(line)))
  }

  lemma {:induction false} ReadLineAfterPuts(line: seq<Byte>, rest: seq<Byte>)
    requires Trimmed(line) && Newline !in line
    ensures ReadLine(Puts(line) + rest) == Ok(ParsedBytes(line + [Newline], rest))
    ensures Strip(line + [Newline]) == line
  {
    GetsAfterPuts(line, rest);
    StripLine(line);
  }

  lemma {:induction false} Append3(a: seq<Byte>, b: seq<Byte>, c: seq<Byte>)
    ensures (a + b) + c == a + (b + c)
  {
  }

  lemma {:induction false} Regroup(a: seq<Byte>, b: seq<Byte>, c: seq<Byte>, d: seq<Byte>)
    ensures (a + (b + c)) + d == a + (b + (c + d))
  {
  }

  /** The three header lines `encode_to` writes. */
  function HeaderLines(magic: seq<Byte>, version: int, sum: seq<Byte>): seq<Byte> {
    Puts(magic) + (Puts(Signed(version, 10)) + Puts(sum))
  }

  /** `load` reads back the header `encode_to` writes and leaves whatever
      follows it on the stream. */
  lemma {:induction false} LoadHeader(magic: seq<Byte>, version: int, sum: seq<Byte>, tail: seq<Byte>)
    requires Trimmed(magic) && Newline !in magic
    requires Trimmed(sum) && Newline !in sum
    ensures Load(HeaderLines(magic, version, sum) + tail) == Ok(File(magic, version, sum, tail, Nil))
  {
    var text := Signed(version, 10);
    SignedIsTrimmedLine(version);
    var l1, l2, l3 := Puts(magic), Puts(text), Puts(sum);
    var s2 := l2 + (l3 + tail);
    var s3 := l3 + tail;
    assert HeaderLines(magic, version, sum) == l1 + (l2 + l3);
    Regroup(l1, l2, l3, tail);
    ReadLineAfterPuts(magic, s2);
    ReadLineAfterPuts(text, s3);
    ReadLineAfterPuts(sum, tail);
    ParseIntegerInvertsToS(version);
    assert ReadVersion(text + [Newline]) == Ok(version);
  }

  /** What `encode_to` leaves on the stream, and the error it raises, if
      any. The header is written before the body is marshalled, so a body
      `marshal` refuses leaves the header alone on the stream. */
  datatype Written = Written(bytes: seq<Byte>, failure: Option<Error>)

  function Header(f: File): seq<Byte> {
    HeaderLines(f.magic, f.version, f.sum)
  }

  /** `CompiledFile#encode_to`. */
  function EncodeTo(f: File, body: Value): (r: Written)
    ensures r.failure.None? <==> Marshal.Marshal(body).Ok?
    ensures |Header(f)| <= |r.bytes| && r.bytes[..|Header(f)|] == Header(f)
  {
    match Marshal.Marshal(body)
    case Ok(b) => Written(Header(f) + b, None)
    case Err(e) => Written(Header(f), Some(e))
  }

  const DumpMagic: seq<Byte> := [33, 82, 66, 73, 88]  // "!RBIX"
  const DumpSum: seq<Byte> := [120]  // "x"

  /** `CompiledFile.dump`: the file contents written, or `None` when the file
      cannot be opened for writing (`EACCES` is swallowed). */
  function Dump(body: Value, writable: bool): (r: Option<Written>)
    ensures r.Some? <==> writable
  {
    if writable then Some(EncodeTo(NewFile(DumpMagic, 0, DumpSum), body)) else None
  }

  /** What `body` returns or raises, and the file as the call leaves it. */
  datatype BodyRead = BodyRead(result: Result<Value, Error>, file: File)

  /** Ruby truthiness: everything but `nil` and `false`. */
  predicate Truthy(v: Value) {
    !v.Nil? && !v.False?
  }

  /** `CompiledFile#body`: the memoised body when it is truthy; otherwise
      the whole rest of the stream is read, and then unmarshalled. The read
      happens first, so an unmarshal error leaves the stream used up and the
      memo as it was. */
  function Body(f: File): (r: BodyRead)
    ensures r.file.magic == f.magic && r.file.version == f.version && r.file.sum == f.sum
    ensures Truthy(f.data) ==> r.result == Ok(f.data) && r.file == f
    ensures !Truthy(f.data) ==> r.file.stream == []
    ensures r.result.Ok? ==> r.file.data == r.result.value
    ensures r.result.Err? ==> r.file.data == f.data
  {
    if Truthy(f.data) then BodyRead(Ok(f.data), f)
    else
      var drained := f.(stream := []);
      match Unmarshal(f.stream)
      case Ok(v) => BodyRead(Ok(v), drained.(data := v))
      case Err(e) => BodyRead(Err(e), drained)
  }

  /** Loading what `encode_to` wrote gives back the header and, through
      `body`, the marshalled value. */
  lemma {:induction false} LoadInvertsEncodeTo(f: File, body: Value, rest: seq<Byte>)
    requires Trimmed(f.magic) && Newline !in f.magic
    requires Trimmed(f.sum) && Newline !in f.sum
    requires WellFormed(body)
    ensures EncodeTo(f, body).failure.None?
    ensures Load(EncodeTo(f, body).bytes + rest) == Ok(File(f.magic, f.version, f.sum, Marshal.Marshal(body).value + rest, Nil))
    ensures Body(Load(EncodeTo(f, body).bytes + rest).value).result == Ok(body)
  {
    UnmarshalInvertsMarshal(body, rest);
    var b := Marshal.Marshal(body).value;
    var h := Header(f);
    assert EncodeTo(f, body).bytes == h + b;
    Append3(h, b, rest);
    LoadHeader(f.magic, f.version, f.sum, b + rest);
    BodyReadsStream(File(f.magic, f.version, f.sum, b + rest, Nil));
  }

  /** The first `body` of a loaded file unmarshals its stream. */
  lemma {:induction false} BodyReadsStream(f: File)
    requires f.data == Nil
    ensures Body(f).result == Unmarshal(f.stream)
    ensures Body(f).file.stream == []
  {
  }

  /** `dump` writes the fixed header `!RBIX`, `0`, `x` before the body. */
  lemma {:induction false} DumpHeader(body: Value)
    requires WellFormed(body)
    ensures Dump(body, true).Some? && Dump(body, true).value.failure.None?
    ensures Load(Dump(body, true).value.bytes) == Ok(File(DumpMagic, 0, DumpSum, Marshal.Marshal(body).value, Nil))
  {
    var f := NewFile(DumpMagic, 0, DumpSum);
    assert Trimmed(DumpMagic) && Newline !in DumpMagic;
    assert Trimmed(DumpSum) && Newline !in DumpSum;
    var w := EncodeTo(f, body).bytes;
    assert w + [] == w;
    LoadInvertsEncodeTo(f, body, []);
    assert Marshal.Marshal(body).value + [] == Marshal.Marshal(body).value;
    assert Load(w) == Ok(File(DumpMagic, 0, DumpSum, Marshal.Marshal(body).value, Nil));
    assert Dump(body, true) == Some(EncodeTo(f, body));
  }

  /** Once `body` has returned a truthy value, later calls return it again
      without touching the stream. */
  lemma {:induction false} BodyMemoised(f: File)
    requires Body(f).result.Ok? && Truthy(Body(f).result.value)
    ensures Body(Body(f).file) == Body(f)
  {
  }

  /** A body that unmarshals to `nil` is not memoised: the second call reads
      the stream again, which the first call has used up. */
  lemma {:induction false} BodyNilIsReread(f: File)
    requires Body(f) == BodyRead(Ok(Nil), f.(stream := [], data := Nil))
    ensures Body(Body(f).file).result == Err(OutOfData)
  {
  }

  /** A `body` that raises has still read the whole stream, so calling it
      again raises on the empty input. */
  lemma {:induction false} BodyFailureIsFinal(f: File)
    requires Body(f).result.Err?
    ensures Body(f).file.stream == [] && !Truthy(Body(f).file.data)
    ensures Body(Body(f).file).result == Err(OutOfData)
  {
  }
}
