/** The option bookkeeping of `Regexp` and the offsets of `MatchData`: the
    option and kcode bit masks, `option_to_string`, `kcode`, `casefold?`,
    `eql?` and the string `hash` digests, the option normalisation done by
    `initialize` (and so by `initialize_copy`), the options group that
    `SourceParser` writes in front of a flattened source, and
    `MatchData#begin`, `#end`, `#offset` and `#collapsing?`. Matching itself
    is not modelled: a regexp is its source and its options. */
module Regexps {
  import opened Wrappers
  import Tuples

  /** The bits of a Fixnum in two's complement. A Fixnum fits a 64-bit
      word, and `&`, `|` and the comparisons with 0 of two Fixnums agree
      with the same operations on their words. */
  type Word = bv64

  const IgnoreCase: Word := 1
  const Extended: Word := 2
  const Multiline: Word := 4
  const DontCaptureGroup: Word := 128
  const CaptureGroup: Word := 256
  const OptionMask: Word := IgnoreCase | Extended | Multiline | DontCaptureGroup | CaptureGroup

  const KcodeAscii: Word := 0
  const KcodeNone: Word := 16
  const KcodeEuc: Word := 32
  const KcodeSjis: Word := 48
  const KcodeUtf8: Word := 64
  const KcodeMask: Word := 112

  /** `ValidKcode` and `KcodeValue`: the first letters of the kcode names
      and the kcode value each one selects. */
  const ValidKcode: seq<char> := "nesu"
  const KcodeValue: seq<Word> := [KcodeNone, KcodeEuc, KcodeSjis, KcodeUtf8]

  /** The names `kcode` gives the four kcode values, in `KcodeValue` order;
      each begins with its `ValidKcode` letter. */
  const KcodeNames: seq<string> := ["none", "euc", "sjis", "utf8"]

  /** A Fixnum word is greater than 0: not zero, sign bit clear. */
  predicate Positive(w: Word) {
    w != 0 && w & 0x8000_0000_0000_0000 == 0
  }

  /** `(option & flag) > 0` for a one-bit flag. */
  predicate HasFlag(option: Word, flag: Word) {
    option & flag != 0
  }

  // ---------------------------------------------------------------------
  // option_to_string and casefold?
  // ---------------------------------------------------------------------

  /** The flag each option letter stands for (`Part::OPTIONS_MAP`); other
      characters stand for none. */
  function LetterFlag(c: char): (f: Word)
    ensures c in "mix" <==> f != 0
  {
    match c
    case 'm' => Multiline
    case 'i' => IgnoreCase
    case 'x' => Extended
    case _ => 0
  }

  /** The position of an option letter in "mix". */
  function Rank(c: char): nat {
    if c == 'm' then 0 else if c == 'i' then 1 else 2
  }

  /** `option_to_string`: the letters of the MULTILINE, IGNORECASE and
      EXTENDED bits that are set, in that order. */
  function OptionToString(option: Word): (s: string)
    ensures forall c :: c in s <==> c in "mix" && HasFlag(option, LetterFlag(c))
    ensures forall i, j :: 0 <= i < j < |s| ==> Rank(s[i]) < Rank(s[j])
  {
    (if HasFlag(option, Multiline) then "m" else "")
    + (if HasFlag(option, IgnoreCase) then "i" else "")
    + (if HasFlag(option, Extended) then "x" else "")
  }

  /** The options a string of option letters turns on: the `|` of the
      `OPTIONS_MAP` flag of every letter. */
  function LettersToOptions(s: string): (o: Word)
    ensures o & !7 == 0
  {
    if s == [] then 0 else LetterFlag(s[0]) | LettersToOptions(s[1..])
  }

  /** Reading the letters back gives exactly the three option bits. */
  lemma {:induction false} LettersOfOptionToString(option: Word)
    ensures LettersToOptions(OptionToString(option)) == option & 7
  {
    var s := OptionToString(option);
    var m := if HasFlag(option, Multiline) then "m" else "";
    var i := if HasFlag(option, IgnoreCase) then "i" else "";
    var x := if HasFlag(option, Extended) then "x" else "";
    LettersAppend(m, i + x);
    LettersAppend(i, x);
    assert s == m + (i + x);
  }

  /** The letters of a concatenation turn on the options of both halves. */
  lemma {:induction false} LettersAppend(a: string, b: string)
    ensures LettersToOptions(a + b) == LettersToOptions(a) | LettersToOptions(b)
    decreases |a|
  {
    if a == [] {
      assert a + b == b;
    } else {
      assert (a + b)[1..] == a[1..] + b;
      LettersAppend(a[1..], b);
    }
  }

  /** `casefold?`: the IGNORECASE bit. */
  function CaseFold(options: Word): (r: bool)
    ensures r <==> options % 2 == 1
    ensures r <==> 'i' in OptionToString(options)
  {
    options & IgnoreCase > 0
  }

  // ---------------------------------------------------------------------
  // kcode
  // ---------------------------------------------------------------------

  /** The first index of `c` in `s` (`Array#index`). */
  function IndexOf(s: seq<char>, c: char): (r: Option<nat>)
    ensures r.Some? ==> r.value < |s| && s[r.value] == c && c !in s[..r.value]
    ensures r.None? <==> c !in s
  {
    if s == [] then None
    else if s[0] == c then Some(0)
    else match IndexOf(s[1..], c)
      case None => None
      case Some(i) => assert s[..i + 1] == [s[0]] + s[1..][..i]; Some(i + 1)
  }

  /** The kcode value a kcode name selects, by its first letter. */
  function KcodeOfLetter(c: char): (r: Option<Word>)
    ensures r.Some? <==> c in ValidKcode
    ensures r.Some? ==> r.value in KcodeValue
  {
    match IndexOf(ValidKcode, c)
    case None => None
    case Some(i) => Some(KcodeValue[i])
  }

  /** `kcode`: the name of the kcode bits, or nil when they hold none of
      the four kcode values. */
  function Kcode(options: Word): (r: Option<string>)
    ensures r.None? <==> options & KcodeMask !in KcodeValue
    ensures forall i :: 0 <= i < |KcodeValue| ==>
              (options & KcodeMask == KcodeValue[i] <==> r == Some(KcodeNames[i]))
    ensures r.Some? ==> |r.value| > 0 && KcodeOfLetter(r.value[0]) == Some(options & KcodeMask)
  {
    var lang := options & KcodeMask;
    if lang == KcodeNone then Some("none")
    else if lang == KcodeEuc then Some("euc")
    else if lang == KcodeSjis then Some("sjis")
    else if lang == KcodeUtf8 then Some("utf8")
    else None
  }

  // ---------------------------------------------------------------------
  // Regexp values, eql? and hash
  // ---------------------------------------------------------------------

  datatype Regexp = Regexp(source: string, options: Word)

  /** The options `eql?` compares: a kcode of 0 counts as KCODE_NONE. No
      carry leaves the kcode bits, so the word sum is the Fixnum sum. */
  function EqlOptions(options: Word): (r: Word)
    ensures r & 7 == options & 7
    ensures r & !KcodeMask == options & !KcodeMask
    ensures r & KcodeMask == if options & KcodeMask == 0 then KcodeNone else options & KcodeMask
  {
    if options & KcodeMask != 0 then options
    else
      NoKcodeCarry(options);
      options + KcodeNone
  }

  /** With the kcode bits clear, adding KCODE_NONE sets its bit and carries
      nowhere. */
  lemma {:induction false} NoKcodeCarry(options: Word)
    requires options & KcodeMask == 0
    ensures options + KcodeNone == options | KcodeNone
  {
  }

  /** `eql?` (and `==`) on two regexps. */
  function Eql(a: Regexp, b: Regexp): (r: bool)
    ensures r <==> a.source == b.source
                   && a.options & !KcodeMask == b.options & !KcodeMask
                   && (a.options & KcodeMask == b.options & KcodeMask
                       || (a.options & KcodeMask == KcodeAscii && b.options & KcodeMask == KcodeNone)
                       || (a.options & KcodeMask == KcodeNone && b.options & KcodeMask == KcodeAscii))
  {
    EqlBySplit(EqlOptions(a.options), EqlOptions(b.options), a.options, b.options);
    a.source == b.source && EqlOptions(a.options) == EqlOptions(b.options)
  }

  /** Two words that keep the bits of `oa` and `ob` outside the kcode mask
      and hold their kcodes with 0 read as KCODE_NONE are equal exactly when
      `oa` and `ob` agree outside the mask and on the kcode so read. */
  lemma {:induction false} EqlBySplit(x: Word, y: Word, oa: Word, ob: Word)
    requires x & !KcodeMask == oa & !KcodeMask && y & !KcodeMask == ob & !KcodeMask
    requires x & KcodeMask == if oa & KcodeMask == 0 then KcodeNone else oa & KcodeMask
    requires y & KcodeMask == if ob & KcodeMask == 0 then KcodeNone else ob & KcodeMask
    ensures x == y <==> oa & !KcodeMask == ob & !KcodeMask
                        && (oa & KcodeMask == ob & KcodeMask
                            || (oa & KcodeMask == KcodeAscii && ob & KcodeMask == KcodeNone)
                            || (oa & KcodeMask == KcodeNone && ob & KcodeMask == KcodeAscii))
  {
    WordsBySplit(x, y);
    NormKcodeEq(oa & KcodeMask, ob & KcodeMask);
  }

  /** Two words are equal exactly when they agree inside and outside the
      kcode mask. */
  lemma {:induction false} WordsBySplit(x: Word, y: Word)
    ensures x == y <==> x & !KcodeMask == y & !KcodeMask && x & KcodeMask == y & KcodeMask
  {
    if x & !KcodeMask == y & !KcodeMask && x & KcodeMask == y & KcodeMask {
      calc {
        x;
        { Recombine(x); }
        (x & !KcodeMask) | (x & KcodeMask);
        (y & !KcodeMask) | (y & KcodeMask);
        { Recombine(y); }
        y;
      }
    }
  }

  /** A word is the union of its bits outside and inside the kcode mask. */
  lemma {:induction false} Recombine(x: Word)
    ensures x == (x & !KcodeMask) | (x & KcodeMask)
  {
  }

  /** Reading a kcode of 0 as KCODE_NONE identifies exactly 0 with
      KCODE_NONE. */
  lemma {:induction false} NormKcodeEq(ka: Word, kb: Word)
    ensures (if ka == 0 then KcodeNone else ka) == (if kb == 0 then KcodeNone else kb)
            <==> ka == kb || (ka == KcodeAscii && kb == KcodeNone) || (ka == KcodeNone && kb == KcodeAscii)
  {
  }

  /** The string `hash` digests: "/source/", the option letters, and the
      first letter of the kcode name, or "n" when no kcode bit is set.
      None when the kcode bits name no kcode: `kcode` is then nil and
      taking its first letter raises. */
  function HashString(r: Regexp): (h: Option<string>)
    ensures h.Some? ==> |h.value| == |r.source| + |OptionToString(r.options)| + 3
    ensures h.Some? ==> h.value[..|h.value| - 1] == "/" + r.source + "/" + OptionToString(r.options)
    ensures h.Some? ==> KcodeOfLetter(h.value[|h.value| - 1]) == Some(EqlOptions(r.options) & KcodeMask)
    ensures h.None? <==> r.options & KcodeMask != 0 && Kcode(r.options).None?
  {
    var prefix := "/" + r.source + "/" + OptionToString(r.options);
    if r.options & KcodeMask == 0 then Some(prefix + "n")
    else match Kcode(r.options)
      case None => None
      case Some(k) => Some(prefix + k[..1])
  }

  /** The three option bits decide the option letters. */
  lemma {:induction false} OptionLettersFromLowBits(a: Word, b: Word)
    requires a & 7 == b & 7
    ensures OptionToString(a) == OptionToString(b)
    ensures CaseFold(a) == CaseFold(b)
  {
    assert a & Multiline == (a & 7) & Multiline;
    assert b & Multiline == (b & 7) & Multiline;
    assert a & IgnoreCase == (a & 7) & IgnoreCase;
    assert b & IgnoreCase == (b & 7) & IgnoreCase;
    assert a & Extended == (a & 7) & Extended;
    assert b & Extended == (b & 7) & Extended;
  }

  /** Regexps that are `eql?` read the same options, fold case alike, and
      give `hash` the same string, so `hash` is consistent with `eql?`. A
      kcode of 0 and KCODE_NONE both hash with the letter "n". */
  lemma {:induction false} EqlAgrees(a: Regexp, b: Regexp)
    requires Eql(a, b)
    ensures OptionToString(a.options) == OptionToString(b.options)
    ensures CaseFold(a.options) == CaseFold(b.options)
    ensures HashString(a) == HashString(b)
  {
    OptionLettersFromLowBits(a.options, b.options);
    var ka, kb := a.options & KcodeMask, b.options & KcodeMask;
    assert "none"[..1] == "n";
    if ka == 0 && kb != 0 {
      assert kb == KcodeNone;
    } else if kb == 0 && ka != 0 {
      assert ka == KcodeNone;
    } else {
      assert ka == kb;
    }
  }

  /** An unspecified kcode and KCODE_NONE are not told apart. */
  lemma {:induction false} EqlIgnoresKcodeNone(source: string, options: Word)
    requires options & KcodeMask == 0
    ensures Eql(Regexp(source, options), Regexp(source, options | KcodeNone))
    ensures Kcode(options | KcodeNone) == Some("none") && Kcode(options).None?
  {
  }

  /** Any other difference in the kcode bits is. */
  lemma {:induction false} EqlSeesKcode(a: Regexp, b: Regexp)
    requires a.source == b.source
    requires a.options & KcodeMask != b.options & KcodeMask
    requires a.options & KcodeMask != 0 && b.options & KcodeMask != 0
    ensures !Eql(a, b)
  {
  }

  // ---------------------------------------------------------------------
  // initialize
  // ---------------------------------------------------------------------

  /** The kinds of pattern `initialize` tells apart. */
  datatype Pattern =
    | RegexpPattern(re: Regexp)
    | FixnumPattern(n: Word)
    | FloatPattern
    | StringPattern(s: string)

  /** The `opts` argument: a Fixnum, another truthy object (a Bignum
      among them), or nil/false. */
  datatype Opts = FixnumOpts(n: Word) | Truthy | Falsy

  datatype RegexpError = TypeError

  /** `String#downcase` on one character: ASCII letters only. */
  function Downcase(c: char): (d: char)
    ensures 'A' <= c <= 'Z' ==> d as int == c as int + 32
    ensures !('A' <= c <= 'Z') ==> d == c
  {
    if 'A' <= c <= 'Z' then (c as int + 32) as char else c
  }

  /** The options before the `lang` argument is looked at. */
  function OptsBeforeLang(pattern: Pattern, opts: Opts): (o: Word)
    requires !pattern.FixnumPattern? && !pattern.FloatPattern?
    ensures !pattern.RegexpPattern? && opts.FixnumOpts? && Positive(opts.n) ==> o & !(OptionMask | KcodeMask) == 0
  {
    if pattern.RegexpPattern? then pattern.re.options
    else match opts
      case FixnumOpts(n) => if Positive(n) then n & (OptionMask | KcodeMask) else n
      case Truthy => IgnoreCase
      case Falsy => 0
  }

  /** The kcode value selected by the downcased first letter of `lang`. */
  function LangKcode(lang: string): (r: Option<Word>)
    ensures r.Some? <==> |lang| > 0 && Downcase(lang[0]) in ValidKcode
    ensures r.Some? ==> r == KcodeOfLetter(Downcase(lang[0]))
  {
    if |lang| == 0 then None
    else match IndexOf(ValidKcode, Downcase(lang[0]))
      case None => None
      case Some(idx) => Some(KcodeValue[idx])
  }

  /** A String `lang` clears the kcode bits and, when its downcased first
      letter is one of "nesu", sets the matching kcode. */
  function ApplyLang(o: Word, lang: string): (r: Word)
    ensures r & OptionMask == o & OptionMask
    ensures r & !(OptionMask | KcodeMask) == 0
  {
    var kept := o & OptionMask;
    match LangKcode(lang)
    case Some(v) => kept | v
    case None => kept
  }

  /** `Regexp.new(pattern, opts, lang)`: the source and the options handed
      to `compile`, or the TypeError a numeric pattern raises. */
  function Initialize(pattern: Pattern, opts: Opts, lang: Option<string>): (r: Result<Regexp, RegexpError>)
    ensures r.Err? <==> pattern.FixnumPattern? || pattern.FloatPattern?
    ensures r.Ok? && pattern.RegexpPattern? ==> r.value.source == pattern.re.source
    ensures r.Ok? && pattern.StringPattern? ==> r.value.source == pattern.s
    ensures r.Ok? && lang.Some? ==> r.value.options & !(OptionMask | KcodeMask) == 0
  {
    if pattern.FixnumPattern? || pattern.FloatPattern? then Err(TypeError)
    else
      var o := OptsBeforeLang(pattern, opts);
      var source := if pattern.RegexpPattern? then pattern.re.source else pattern.s;
      Ok(Regexp(source, if lang.Some? then ApplyLang(o, lang.value) else o))
  }

  /** A String `lang` decides the kcode: the name `kcode` reports starts
      with the downcased first letter of `lang`, or is nil when that letter
      is not one of "nesu". The option bits survive. */
  lemma {:induction false} LangSetsKcode(o: Word, lang: string)
    ensures |lang| > 0 && Downcase(lang[0]) in ValidKcode ==>
              Kcode(ApplyLang(o, lang)).Some? && Kcode(ApplyLang(o, lang)).value[0] == Downcase(lang[0])
    ensures !(|lang| > 0 && Downcase(lang[0]) in ValidKcode) ==> Kcode(ApplyLang(o, lang)).None?
  {
    var v := LangKcode(lang);
    if v.Some? {
      var i := IndexOf(ValidKcode, Downcase(lang[0])).value;
      assert i == 0 || i == 1 || i == 2 || i == 3;
    }
  }

  /** The IGNORECASE, EXTENDED and MULTILINE bits of a String-pattern regexp
      are those of a Fixnum `opts`, IGNORECASE alone for another truthy
      `opts`, and none for nil or false, whatever `lang` is. */
  lemma {:induction false} InitializeKeepsFlags(s: string, opts: Opts, lang: Option<string>)
    ensures var r := Initialize(StringPattern(s), opts, lang);
      r.Ok? &&
      (opts.FixnumOpts? ==> r.value.options & 7 == opts.n & 7) &&
      (opts.Truthy? ==> OptionToString(r.value.options) == "i") &&
      (opts.Falsy? ==> OptionToString(r.value.options) == "")
  {
    var o := OptsBeforeLang(StringPattern(s), opts);
    var final := Initialize(StringPattern(s), opts, lang).value.options;
    assert final & 7 == o & 7 by {
      if lang.Some? {
        assert final & OptionMask == o & OptionMask;
        assert final & 7 == (final & OptionMask) & 7;
        assert o & 7 == (o & OptionMask) & 7;
      }
    }
    OptionLettersFromLowBits(final, o);
  }

  /** Options that fit the option and kcode masks. */
  predicate WellFormedOptions(o: Word) {
    o & !(OptionMask | KcodeMask) == 0
  }

  /** `initialize_copy`: `initialize` with the other regexp's source, its
      options and its kcode name as `lang`. */
  function InitializeCopy(other: Regexp): (r: Result<Regexp, RegexpError>)
    ensures r.Ok? && r.value.source == other.source
  {
    Initialize(StringPattern(other.source), FixnumOpts(other.options), Kcode(other.options))
  }

  /** Copying a regexp with well-formed options gives back the same regexp:
      the kcode name passed as `lang` puts back the kcode bits the `lang`
      path clears. */
  lemma {:induction false} CopyIsIdentity(other: Regexp)
    requires WellFormedOptions(other.options)
    ensures InitializeCopy(other) == Ok(other)
  {
    var o := other.options;
    var k := Kcode(o);
    if k.Some? {
      var name := k.value;
      assert Downcase(name[0]) == name[0];
      assert LangKcode(name) == Some(o & KcodeMask);
    }
  }

  /** A copy of a regexp whose options carry bits outside the masks has
      those bits cleared, so it is not `eql?` to the original. */
  lemma {:induction false} CopyDropsStrayBits(source: string)
    ensures InitializeCopy(Regexp(source, 8 | KcodeNone)) == Ok(Regexp(source, KcodeNone))
    ensures !Eql(Regexp(source, 8 | KcodeNone), Regexp(source, KcodeNone))
  {
    assert LangKcode("none") == Some(KcodeNone);
  }

  /** Every regexp `initialize` builds from a String pattern with a
      positive Fixnum, a non-Fixnum `opts`, or a String `lang` has
      well-formed options, so its copy is itself. */
  lemma {:induction false} InitializeWellFormed(s: string, opts: Opts, lang: Option<string>)
    requires lang.Some? || !opts.FixnumOpts? || Positive(opts.n)
    ensures Initialize(StringPattern(s), opts, lang).Ok?
    ensures WellFormedOptions(Initialize(StringPattern(s), opts, lang).value.options)
  {
  }

  // ---------------------------------------------------------------------
  // SourceParser#options_string
  // ---------------------------------------------------------------------

  /** A part of a parsed source: its text and the option letters of its
      `(?...:` group, in the order `push_option!` met them. */
  datatype Part = Part(source: string, options: seq<char>)

  /** The letters of "mix" that `chosen` does not contain. */
  function Excluded(chosen: seq<char>): (r: string)
    ensures forall c :: c in r <==> c in "mix" && c !in chosen
  {
    (if 'm' in chosen then "" else "m")
    + (if 'i' in chosen then "" else "i")
    + (if 'x' in chosen then "" else "x")
  }

  /** The chosen option letters, then "-" and the letters of "mix" still
      missing, if any. */
  function Completed(chosen: string): (r: string)
    ensures 'm' in r && 'i' in r && 'x' in r
    ensures |chosen| <= |r| && r[..|chosen|] == chosen
  {
    var excluded := Excluded(chosen);
    if excluded == [] then chosen else chosen + "-" + excluded
  }

  /** `options_string`: the letters of the regexp's own flags, the group
      options of a lone part, then "-" and every letter still missing. */
  function OptionsString(options: Word, parts: seq<Part>): (r: string)
    ensures 'm' in r && 'i' in r && 'x' in r
    ensures |parts| != 1 ==> r[..|OptionToString(options)|] == OptionToString(options)
  {
    Completed(OptionToString(options) + (if |parts| == 1 then parts[0].options else []))
  }

  /** How an options group "on-off" reads: each letter turns its option
      on, or off once a "-" has gone before it, and the last mention
      wins. None when `c` is not mentioned. */
  function Setting(s: string, c: char, negated: bool): (r: Option<bool>)
    ensures r.Some? <==> c in s
  {
    if s == [] then None
    else
      var rest := Setting(s[1..], c, negated || s[0] == '-');
      if rest.Some? then rest
      else if s[0] == c then Some(!negated)
      else None
  }

  lemma {:induction false} SettingAppend(a: string, b: string, c: char, negated: bool)
    ensures Setting(a + b, c, negated) ==
      if c in b then Setting(b, c, negated || '-' in a) else Setting(a, c, negated)
    decreases |a|
  {
    if a == [] {
      assert a + b == b;
    } else {
      assert (a + b)[1..] == a[1..] + b;
      SettingAppend(a[1..], b, c, negated || a[0] == '-');
      assert ('-' in a) == (a[0] == '-' || '-' in a[1..]);
    }
  }

  /** Letters after a leading "-" are all turned off. */
  lemma {:induction false} SettingNegated(s: string, c: char)
    requires c in s
    ensures Setting(s, c, true) == Some(false)
    decreases |s|
  {
    if c in s[1..] {
      SettingNegated(s[1..], c);
    }
  }

  /** Letters without a "-" before them are all turned on. */
  lemma {:induction false} SettingPlain(s: string, c: char)
    requires c in s && '-' !in s
    ensures Setting(s, c, false) == Some(true)
    decreases |s|
  {
    assert s[0] != '-';
    if c in s[1..] {
      assert '-' !in s[1..];
      SettingPlain(s[1..], c);
    }
  }

  /** What a completed options group says about one letter of "mix": the
      group options win when they mention it; otherwise it is on exactly
      when it is among the regexp's own letters. */
  lemma {:induction false} CompletedMeaning(flags: string, inner: string, c: char)
    requires c in "mix" && '-' !in flags
    ensures Setting(Completed(flags + inner), c, false) ==
      if c in inner then Setting(inner, c, false) else Some(c in flags)
  {
    var chosen := flags + inner;
    var excluded := Excluded(chosen);
    var tail := if excluded == [] then [] else "-" + excluded;
    assert Completed(chosen) == chosen + tail;
    SettingAppend(chosen, tail, c, false);
    if c in chosen {
      assert c !in tail;
      SettingAppend(flags, inner, c, false);
      if c !in inner {
        SettingPlain(flags, c);
      }
    } else {
      assert c in excluded;
      assert tail[1..] == excluded;
      SettingNegated(excluded, c);
    }
  }

  /** The options group `options_string` writes means what the regexp's
      flags mean, overridden by whatever a lone part's own group says: each
      of m, i and x ends up on or off, exactly as the flags (or the part)
      set it. */
  lemma {:induction false} OptionsStringMeaning(options: Word, parts: seq<Part>, c: char)
    requires c in "mix"
    ensures Setting(OptionsString(options, parts), c, false) ==
      if |parts| == 1 && c in parts[0].options then Setting(parts[0].options, c, false)
      else Some(HasFlag(options, LetterFlag(c)))
  {
    var flags := OptionToString(options);
    assert '-' !in flags;
    CompletedMeaning(flags, if |parts| == 1 then parts[0].options else [], c);
  }

  // ---------------------------------------------------------------------
  // MatchData
  // ---------------------------------------------------------------------

  /** A begin/end offset pair; -1 marks a group that did not take part. */
  datatype Span = Span(start: int, stop: int)

  /** The offsets of the whole match and of each capture group. */
  datatype MatchData = MatchData(full: Span, region: seq<Span>)

  /** The span of group `idx`: the whole match for 0, else entry `idx - 1`
      of the region tuple, whose `at` rejects an index out of range. */
  function Group(m: MatchData, idx: int): (r: Result<Span, Tuples.BoundsError>)
    ensures r.Ok? <==> idx == 0 || 1 <= idx <= |m.region|
    ensures r.Err? ==> r.error == Tuples.OutOfBounds
  {
    if idx == 0 then Ok(m.full)
    else if idx - 1 < 0 || idx - 1 >= |m.region| then Err(Tuples.OutOfBounds)
    else Ok(m.region[idx - 1])
  }

  /** `MatchData#begin`. */
  function Begin(m: MatchData, idx: int): (r: Result<Option<int>, Tuples.BoundsError>)
    ensures r.Ok? <==> Group(m, idx).Ok?
    ensures r.Ok? && r.value.Some? ==> r.value.value == Group(m, idx).value.start
    ensures r.Ok? && idx != 0 ==> (r.value.None? <==> Group(m, idx).value.start == -1)
  {
    if idx == 0 then Ok(Some(m.full.start))
    else
      var g :- Group(m, idx);
      if g.start == -1 then Ok(None) else Ok(Some(g.start))
  }

  /** `MatchData#end`. */
  function End(m: MatchData, idx: int): (r: Result<Option<int>, Tuples.BoundsError>)
    ensures r.Ok? <==> Group(m, idx).Ok?
    ensures r.Ok? && r.value.Some? ==> r.value.value == Group(m, idx).value.stop
    ensures r.Ok? && idx != 0 ==> (r.value.None? <==> Group(m, idx).value.stop == -1)
  {
    if idx == 0 then Ok(Some(m.full.stop))
    else
      var g :- Group(m, idx);
      if g.stop == -1 then Ok(None) else Ok(Some(g.stop))
  }

  /** `MatchData#collapsing?`: the whole match is empty. */
  function Collapsing(m: MatchData): (r: bool)
    ensures r <==> Begin(m, 0) == End(m, 0)
  {
    m.full.start == m.full.stop
  }

  /** `MatchData#offset`: begin and end of a group. */
  function Offset(m: MatchData, idx: int): (r: Result<(Option<int>, Option<int>), Tuples.BoundsError>)
    ensures r.Ok? <==> Group(m, idx).Ok?
  {
    if Begin(m, idx).Err? then Err(Begin(m, idx).error)
    else Ok((Begin(m, idx).value, End(m, idx).value))
  }

  /** The whole match always has both offsets, and it collapses exactly
      when its offset pair is a repeated number. A group's offsets are
      its span, with -1 read as nil. */
  lemma {:induction false} OffsetOfGroup(m: MatchData, idx: int)
    requires Group(m, idx).Ok?
    ensures var g := Group(m, idx).value;
      Offset(m, idx) == Ok((if idx != 0 && g.start == -1 then None else Some(g.start),
                            if idx != 0 && g.stop == -1 then None else Some(g.stop)))
    ensures idx == 0 ==> (Collapsing(m) <==> Offset(m, 0).value.0 == Offset(m, 0).value.1)
  {
  }
}
