/** The part of C's sscanf that the socket-table reader uses: literal
    characters, white space, and the conversions %d, %u and %x, each either
    assigned or suppressed with '*'.

    Scan follows sscanf: it works through the format from the left and stops
    at the first directive that does not match; the values it returns are
    those assigned before that point, so a caller that compares sscanf's
    return value with the number of assigning conversions is comparing it
    with the length of this sequence. */
module Scanf {
  import opened Words
  import opened Numerals

  datatype Directive =
    | Space              // white space in the format: skips any run of white space
    | Lit(c: char)       // an ordinary character: must match exactly
    | Dec(assign: bool)  // %d or %u (%*d when not assigned)
    | Hex(assign: bool)  // %x (%*x when not assigned)

  /** The C isspace set. */
  predicate IsSpace(c: char) {
    c == ' ' || '\t' <= c <= '\r'
  }

  function SkipSpace(s: string): (t: string)
    ensures |t| <= |s|
    ensures t == [] || !IsSpace(t[0])
    ensures forall i :: 0 <= i < |s| - |t| ==> IsSpace(s[i])
  {
    if s != [] && IsSpace(s[0]) then SkipSpace(s[1..]) else s
  }

  /** What white-space skipping leaves is a suffix of its input. */
  lemma {:induction false} SkipSpaceSuffix(s: string)
    ensures SkipSpace(s) == s[|s| - |SkipSpace(s)|..]
  {
    if s != [] && IsSpace(s[0]) {
      SkipSpaceSuffix(s[1..]);
      assert s[1..][|s| - 1 - |SkipSpace(s)|..] == s[|s| - |SkipSpace(s)|..];
    }
  }

  predicate IsDigitIn(c: char, hex: bool) {
    if hex then IsHexDigit(c) else IsDecDigit(c)
  }

  /** The length of the longest prefix of s made of digits. */
  function DigitRun(s: string, hex: bool): (n: nat)
    ensures n <= |s|
    ensures forall i :: 0 <= i < n ==> IsDigitIn(s[i], hex)
    ensures n < |s| ==> !IsDigitIn(s[n], hex)
  {
    if s != [] && IsDigitIn(s[0], hex) then 1 + DigitRun(s[1..], hex) else 0
  }

  /** The number of values a format assigns when it matches completely. */
  function Assigns(fmt: seq<Directive>): nat {
    if fmt == [] then 0 else Assigns(fmt[1..]) + (if Assigning(fmt[0]) then 1 else 0)
  }

  predicate Assigning(d: Directive) {
    (d.Dec? || d.Hex?) && d.assign
  }

  /** The outcome of matching one directive at the start of the input. */
  datatype Step = Mismatch | Matched(stored: seq<u32>, rest: string)

  /** Matches one directive. A numeric conversion skips leading white
      space, takes the longest run of digits (at least one), and stores
      their value truncated to 32 bits. */
  function MatchDirective(d: Directive, s: string): (m: Step)
    ensures m.Matched? ==> |m.rest| <= |s| && |m.stored| == (if Assigning(d) then 1 else 0)
  {
    if d.Space? then Matched([], SkipSpace(s))
    else if d.Lit? then MatchChar(s, d.c)
    else MatchNumber(s, d.assign, d.Hex?)
  }

  function MatchChar(s: string, c: char): (m: Step)
    ensures m.Matched? <==> s != [] && s[0] == c
    ensures m.Matched? ==> m.stored == [] && m.rest == s[1..]
  {
    if s != [] && s[0] == c then Matched([], s[1..]) else Mismatch
  }

  function MatchNumber(s: string, assign: bool, hex: bool): (m: Step)
    ensures m.Matched? ==> |m.rest| <= |s|
    ensures m.Matched? ==> |m.stored| == (if assign then 1 else 0)
  {
    var t := SkipSpace(s);
    var n := DigitRun(t, hex);
    if n == 0 then Mismatch
    else
      Matched(if assign then [Converted(t[..n], hex)] else [], t[n..])
  }

  /** glibc reads an unsigned numeral as an unsigned long, which
      saturates at ULONG_MAX, and then truncates it to the unsigned int
      the conversion stores. */
  const ULONG_MAX: nat := 0xFFFF_FFFF_FFFF_FFFF

  function Saturate(v: nat): (r: nat)
    ensures r <= ULONG_MAX
    ensures v <= ULONG_MAX ==> r == v
    ensures v > ULONG_MAX ==> r == ULONG_MAX
  {
    if v <= ULONG_MAX then v else ULONG_MAX
  }

  /** The values sscanf(s, fmt, ...) stores, in order. */
  function Scan(fmt: seq<Directive>, s: string): seq<u32> {
    if fmt == [] then []
    else match MatchDirective(fmt[0], s)
      case Mismatch => []
      case Matched(stored, rest) => stored + Scan(fmt[1..], rest)
  }

  lemma {:induction false} ScanLength(fmt: seq<Directive>, s: string)
    ensures |Scan(fmt, s)| <= Assigns(fmt)
  {
    if fmt != [] {
      var m := MatchDirective(fmt[0], s);
      if m.Matched? {
        ScanLength(fmt[1..], m.rest);
      }
    }
  }

  /** vs without its element at index k (vs itself when it has no such element). */
  function Drop(vs: seq<u32>, k: nat): (r: seq<u32>)
    ensures k < |vs| ==> |r| == |vs| - 1
    ensures k < |vs| ==> forall i :: 0 <= i < |r| ==> r[i] == (if i < k then vs[i] else vs[i + 1])
    ensures k >= |vs| ==> r == vs
  {
    if k < |vs| then vs[..k] + vs[k + 1..] else vs
  }

  /** Suppressing one %x conversion (writing %*x) removes exactly its value
      from what sscanf stores, whether or not the scan gets that far. */
  lemma {:induction false} SuppressHex(p: seq<Directive>, q: seq<Directive>, s: string)
    ensures Scan(p + [Hex(false)] + q, s) == Drop(Scan(p + [Hex(true)] + q, s), Assigns(p))
  {
    if p == [] {
      SuppressFirstHex(q, s);
    } else {
      var m := MatchDirective(p[0], s);
      var f, g := p[1..] + [Hex(false)] + q, p[1..] + [Hex(true)] + q;
      assert p + [Hex(false)] + q == [p[0]] + f;
      assert p + [Hex(true)] + q == [p[0]] + g;
      ScanCons(p[0], f, s);
      ScanCons(p[0], g, s);
      if m.Matched? {
        SuppressHex(p[1..], q, m.rest);
        DropAfter(m.stored, Scan(g, m.rest), Assigns(p[1..]));
      }
    }
  }

  /** The case of SuppressHex where the suppressed conversion comes first. */
  lemma SuppressFirstHex(q: seq<Directive>, s: string)
    ensures Scan([Hex(false)] + q, s) == Drop(Scan([Hex(true)] + q, s), 0)
  {
    ScanCons(Hex(false), q, s);
    ScanCons(Hex(true), q, s);
    var m := MatchDirective(Hex(true), s);
    if m.Matched? {
      var x := Scan(q, m.rest);
      assert (m.stored + x)[1..] == x;
    }
  }

  /** One step of Scan on a format that starts with d. */
  lemma ScanCons(d: Directive, r: seq<Directive>, s: string)
    ensures Scan([d] + r, s) == (var m := MatchDirective(d, s); if m.Matched? then m.stored + Scan(r, m.rest) else [])
  {
    assert ([d] + r)[1..] == r;
  }

  lemma DropAfter(a: seq<u32>, x: seq<u32>, k: nat)
    ensures Drop(a + x, |a| + k) == a + Drop(x, k)
  {
    if k < |x| {
      assert (a + x)[..|a| + k] == a + x[..k];
      assert (a + x)[|a| + k + 1..] == x[k + 1..];
    }
  }

  // ---------------------------------------------------------------------
  // Layouts: text made of numerals and separators, read back by sscanf

  predicate IsConversion(d: Directive) {
    d.Dec? || d.Hex?
  }

  /** A non-empty run of digits of the given base. */
  predicate IsWord(w: string, hex: bool) {
    w != [] && forall k :: 0 <= k < |w| ==> IsDigitIn(w[k], hex)
  }

  /** The format that matches the separator text sep: a blank becomes a
      white space directive and every other character a literal. */
  function SepFormat(sep: string): (fmt: seq<Directive>)
    ensures |fmt| == |sep|
  {
    if sep == [] then [] else [if sep[0] == ' ' then Space else Lit(sep[0])] + SepFormat(sep[1..])
  }

  lemma {:induction false} SepFormatAppend(a: string, b: string)
    ensures SepFormat(a + b) == SepFormat(a) + SepFormat(b)
  {
    if a == [] {
      EmptyConcat(a, b);
      EmptyConcat(SepFormat(a), SepFormat(b));
    } else {
      assert (a + b)[0] == a[0] && (a + b)[1..] == a[1..] + b;
      SepFormatAppend(a[1..], b);
    }
  }

  /** Separator text that its own format reads back: its only white space
      is single blanks. */
  predicate PlainSep(sep: string) {
    sep == [] ||
    ((IsSpace(sep[0]) ==> sep[0] == ' ') &&
     (|sep| > 1 && sep[0] == ' ' ==> sep[1] != ' ') &&
     PlainSep(sep[1..]))
  }

  /** A format that reads the same with white space in front of the input:
      it is empty or starts with a numeric conversion. */
  predicate SkipsBlanks(g: seq<Directive>) {
    g == [] || IsConversion(g[0])
  }

  /** A format that matches separators only skips them and stores nothing;
      white space after a final blank is skipped by that blank, and what
      reads on skips white space itself. */
  lemma {:induction false} ScanSep(sep: string, g: seq<Directive>, after: string)
    requires PlainSep(sep)
    requires sep != [] && sep[|sep| - 1] == ' ' ==> SkipsBlanks(g)
    ensures Scan(SepFormat(sep) + g, sep + after) == Scan(g, after)
  {
    if sep == [] {
      EmptyConcat(SepFormat(sep), g);
      EmptyConcat(sep, after);
    } else {
      ScanSepHead(sep, g, after);
      ScanSep(sep[1..], g, after);
    }
  }

  /** The first separator character is matched by its own directive. */
  lemma ScanSepHead(sep: string, g: seq<Directive>, after: string)
    requires sep != [] && PlainSep(sep)
    requires sep[|sep| - 1] == ' ' ==> SkipsBlanks(g)
    ensures PlainSep(sep[1..])
    ensures Scan(SepFormat(sep) + g, sep + after) == Scan(SepFormat(sep[1..]) + g, sep[1..] + after)
  {
    var d := if sep[0] == ' ' then Space else Lit(sep[0]);
    var rest := sep[1..] + after;
    Regroup([d], SepFormat(sep[1..]), g);
    Regroup([sep[0]], sep[1..], after);
    assert [sep[0]] + sep[1..] == sep;
    if sep[0] == ' ' && sep[1..] == [] {
      EmptyConcat(sep[1..], after);
      EmptyConcat(SepFormat(sep[1..]), g);
      assert SkipSpace([sep[0]] + rest) == SkipSpace(rest);
      ScanStep(d, SepFormat(sep[1..]) + g, [sep[0]] + rest, [], SkipSpace(rest));
      ScanAfterSpace(g, rest);
    } else {
      if sep[0] == ' ' {
        assert rest[0] == sep[1] && sep[1] != ' ';
        assert SkipSpace([sep[0]] + rest) == SkipSpace(rest) == rest;
      }
      ScanStep(d, SepFormat(sep[1..]) + g, [sep[0]] + rest, [], rest);
    }
  }

  /** White space in front of the input does not change how a format that
      skips blanks reads it. */
  lemma ScanAfterSpace(g: seq<Directive>, s: string)
    requires SkipsBlanks(g)
    ensures Scan(g, SkipSpace(s)) == Scan(g, s)
  {
    if g != [] {
      var t := SkipSpace(s);
      assert SkipSpace(t) == t;
      MatchAfterSpace(g[0], t, s);
    }
  }

  lemma EmptyConcat<T>(x: seq<T>, y: seq<T>)
    requires x == []
    ensures x + y == y
  {
  }

  lemma Regroup<T>(a: seq<T>, b: seq<T>, c: seq<T>)
    ensures a + b + c == a + (b + c)
  {
  }

  /** One conversion and the separator text that follows it. */
  datatype Field = Field(conv: Directive, sep: string)

  /** The format of a sequence of fields. */
  function FieldsFormat(fs: seq<Field>): seq<Directive> {
    if fs == [] then [] else [fs[0].conv] + (SepFormat(fs[0].sep) + FieldsFormat(fs[1..]))
  }

  /** The text of a sequence of fields, with the given numeral for each. */
  function FieldsText(fs: seq<Field>, words: seq<string>): string
    requires |words| == |fs|
  {
    if fs == [] then [] else words[0] + (fs[0].sep + FieldsText(fs[1..], words[1..]))
  }

  /** The numerals that fill the fields, each in its conversion's base and
      padded to its width. */
  predicate FitFields(fs: seq<Field>, words: seq<string>) {
    |words| == |fs| && forall i :: 0 <= i < |fs| ==> IsPadded(words[i], fs[i].conv.Hex?)
  }

  /** A numeral as printf writes it into a field of some width: white
      space in front, then a non-empty run of digits of the base. */
  predicate IsPadded(w: string, hex: bool) {
    IsWord(SkipSpace(w), hex)
  }

  /** A numeral with no padding is a padded numeral. */
  lemma WordIsPadded(w: string, hex: bool)
    requires IsWord(w, hex)
    ensures SkipSpace(w) == w && IsPadded(w, hex)
  {
    assert !IsSpace(w[0]);
  }

  /** White space holds no digits, so a numeral's padding does not change
      its digits. */
  lemma {:induction false} HexDigitsSkipSpace(s: string)
    ensures HexDigits(SkipSpace(s)) == HexDigits(s)
  {
    if s != [] && IsSpace(s[0]) {
      HexDigitsSkipSpace(s[1..]);
      assert !IsHexDigit(s[0]);
    }
  }

  /** A padded numeral stores the value of the numeral inside it. */
  lemma ConvertedPadded(w: string, hex: bool)
    ensures Converted(SkipSpace(w), hex) == Converted(w, hex)
  {
    HexDigitsSkipSpace(w);
  }

  /** Every field holds a conversion and a plain separator that cannot be
      read as one more digit; only the last separator may be empty. */
  predicate ValidFields(fs: seq<Field>) {
    forall i :: 0 <= i < |fs| ==>
      IsConversion(fs[i].conv) && PlainSep(fs[i].sep) &&
      (fs[i].sep == [] ==> i == |fs| - 1) &&
      (fs[i].sep != [] ==> !IsDigitIn(fs[i].sep[0], fs[i].conv.Hex?))
  }

  /** What may follow the text of the fields without changing how it reads. */
  predicate TailFits(fs: seq<Field>, tail: string) {
    fs == [] || tail == [] || fs[|fs| - 1].sep != [] || !IsDigitIn(tail[0], fs[|fs| - 1].conv.Hex?)
  }

  /** The value a conversion stores for a numeral. */
  function Converted(w: string, hex: bool): u32 {
    ToU32(Saturate(Value(HexDigits(w), if hex then 16 else 10)))
  }

  /** The values the assigning fields store, in order. */
  function Assigned(fs: seq<Field>, words: seq<string>): seq<u32>
    requires |words| == |fs|
  {
    if fs == [] then []
    else (if Assigning(fs[0].conv) then [Converted(words[0], fs[0].conv.Hex?)] else []) + Assigned(fs[1..], words[1..])
  }

  lemma {:induction false} AssignsAppend(a: seq<Directive>, b: seq<Directive>)
    ensures Assigns(a + b) == Assigns(a) + Assigns(b)
  {
    if a == [] {
      EmptyConcat(a, b);
    } else {
      assert (a + b)[0] == a[0] && (a + b)[1..] == a[1..] + b;
      AssignsAppend(a[1..], b);
    }
  }

  /** A format with no assigning conversion assigns nothing. */
  lemma {:induction false} AssignsNone(fmt: seq<Directive>)
    requires forall i :: 0 <= i < |fmt| ==> !Assigning(fmt[i])
    ensures Assigns(fmt) == 0
  {
    if fmt != [] {
      AssignsNone(fmt[1..]);
    }
  }

  /** The format of fields one after the other. */
  lemma {:induction false} FieldsFormatAppend(a: seq<Field>, b: seq<Field>)
    ensures FieldsFormat(a + b) == FieldsFormat(a) + FieldsFormat(b)
  {
    if a == [] {
      EmptyConcat(a, b);
      EmptyConcat(FieldsFormat(a), FieldsFormat(b));
    } else {
      assert (a + b)[0] == a[0] && (a + b)[1..] == a[1..] + b;
      FieldsFormatAppend(a[1..], b);
      Regroup(SepFormat(a[0].sep), FieldsFormat(a[1..]), FieldsFormat(b));
      Regroup([a[0].conv], SepFormat(a[0].sep) + FieldsFormat(a[1..]), FieldsFormat(b));
    }
  }

  /** The positions, counted from k, of the assigning fields. */
  function Positions(fs: seq<Field>, k: nat): (ps: seq<nat>)
    ensures forall j :: 0 <= j < |ps| ==> k <= ps[j] < k + |fs|
  {
    if fs == [] then []
    else (if Assigning(fs[0].conv) then [k] else []) + Positions(fs[1..], k + 1)
  }

  lemma {:induction false} PositionsAppend(a: seq<Field>, b: seq<Field>, k: nat)
    ensures Positions(a + b, k) == Positions(a, k) + Positions(b, k + |a|)
  {
    if a == [] {
      EmptyConcat(a, b);
    } else {
      assert (a + b)[0] == a[0] && (a + b)[1..] == a[1..] + b;
      PositionsAppend(a[1..], b, k + 1);
    }
  }

  /** Value j of what the fields store comes from the j-th assigning field. */
  lemma {:induction false} AssignedByPosition(fs: seq<Field>, words: seq<string>, k: nat)
    requires |words| == |fs|
    ensures |Assigned(fs, words)| == |Positions(fs, k)|
    ensures forall j :: 0 <= j < |Positions(fs, k)| ==>
      Assigned(fs, words)[j] == Converted(words[Positions(fs, k)[j] - k], fs[Positions(fs, k)[j] - k].conv.Hex?)
  {
    if fs != [] {
      AssignedByPosition(fs[1..], words[1..], k + 1);
      var n := if Assigning(fs[0].conv) then 1 else 0;
      assert Positions(fs, k) == (if n == 1 then [k] else []) + Positions(fs[1..], k + 1);
      assert Assigned(fs, words) == (if n == 1 then [Converted(words[0], fs[0].conv.Hex?)] else []) + Assigned(fs[1..], words[1..]);
      AssignedStep(fs, words, k, n, Positions(fs, k), Positions(fs[1..], k + 1), Assigned(fs, words), Assigned(fs[1..], words[1..]));
    }
  }

  lemma AssignedStep(fs: seq<Field>, words: seq<string>, k: nat, n: nat,
                     ps: seq<nat>, rest: seq<nat>, a: seq<u32>, b: seq<u32>)
    requires fs != [] && |words| == |fs| && n <= 1
    requires ps == (if n == 1 then [k] else []) + rest
    requires a == (if n == 1 then [Converted(words[0], fs[0].conv.Hex?)] else []) + b
    requires forall j :: 0 <= j < |rest| ==> k + 1 <= rest[j] < k + |fs|
    requires |b| == |rest|
    requires forall j :: 0 <= j < |rest| ==> b[j] == Converted(words[1..][rest[j] - (k + 1)], fs[1..][rest[j] - (k + 1)].conv.Hex?)
    ensures |a| == |ps|
    ensures forall j :: 0 <= j < |ps| ==> a[j] == Converted(words[ps[j] - k], fs[ps[j] - k].conv.Hex?)
  {
    forall j | 0 <= j < |ps|
      ensures a[j] == Converted(words[ps[j] - k], fs[ps[j] - k].conv.Hex?)
    {
      if j >= n {
        var i := rest[j - n] - (k + 1);
        assert ps[j] == rest[j - n] && a[j] == b[j - n];
        assert words[1..][i] == words[ps[j] - k] && fs[1..][i] == fs[ps[j] - k];
      }
    }
  }

  lemma {:induction false} DigitRunAppend(w: string, x: string, hex: bool)
    requires forall k :: 0 <= k < |w| ==> IsDigitIn(w[k], hex)
    requires x == [] || !IsDigitIn(x[0], hex)
    ensures DigitRun(w + x, hex) == |w|
  {
    if w != [] {
      assert (w + x)[1..] == w[1..] + x;
      DigitRunAppend(w[1..], x, hex);
    } else {
      assert w + x == x;
    }
  }

  /** A conversion reads exactly a padded numeral that is not followed by
      one more digit. */
  lemma MatchConversion(d: Directive, w: string, after: string)
    requires IsConversion(d) && IsPadded(w, d.Hex?)
    requires after == [] || !IsDigitIn(after[0], d.Hex?)
    ensures MatchDirective(d, w + after) == Matched(if d.assign then [Converted(w, d.Hex?)] else [], after)
  {
    var core := SkipSpace(w);
    SkipSpaceSuffix(w);
    var pad := w[..|w| - |core|];
    assert w == pad + core;
    assert w + after == pad + (core + after);
    SkipSpaceBlanks(pad, core + after);
    assert !IsSpace(core[0]) && (core + after)[0] == core[0];
    assert SkipSpace(core + after) == core + after;
    DigitRunAppend(core, after, d.Hex?);
    assert (core + after)[..|core|] == core && (core + after)[|core|..] == after;
    ConvertedPadded(w, d.Hex?);
  }

  /** What a numeric conversion does: it matches exactly when the first
      character after the white space is a digit of its base; it then
      consumes a padded numeral, stops at the first character that is no
      such digit, and stores the numeral's value when it assigns. */
  lemma MatchNumberReads(s: string, assign: bool, hex: bool)
    ensures var m := MatchNumber(s, assign, hex);
      (m.Matched? <==> SkipSpace(s) != [] && IsDigitIn(SkipSpace(s)[0], hex)) &&
      (m.Matched? ==>
        |m.rest| < |s| && s == s[..|s| - |m.rest|] + m.rest &&
        IsPadded(s[..|s| - |m.rest|], hex) &&
        (m.rest == [] || !IsDigitIn(m.rest[0], hex)) &&
        m.stored == (if assign then [Converted(s[..|s| - |m.rest|], hex)] else []))
  {
    var t := SkipSpace(s);
    var n := DigitRun(t, hex);
    var m := MatchNumber(s, assign, hex);
    assert m == if n == 0 then Mismatch else Matched(if assign then [Converted(t[..n], hex)] else [], t[n..]);
    assert n > 0 <==> t != [] && IsDigitIn(t[0], hex);
    if n > 0 {
      ConsumedNumeral(s, t, n, hex);
    }
  }

  /** The part of the input a matching conversion consumes: the white
      space, then the digits. */
  lemma ConsumedNumeral(s: string, t: string, n: nat, hex: bool)
    requires t == SkipSpace(s) && 0 < n == DigitRun(t, hex)
    ensures |t[n..]| < |s|
    ensures var used := s[..|s| - |t[n..]|];
      s == used + t[n..] && IsPadded(used, hex) && Converted(used, hex) == Converted(t[..n], hex)
  {
    SkipSpaceSuffix(s);
    var k := |s| - |t|;
    var used := s[..k + n];
    assert t[n..] == s[k + n..];
    assert s == used + s[k + n..];
    assert used == s[..k] + t[..n];
    SkipSpaceBlanks(s[..k], t[..n]);
    assert !IsSpace(t[..n][0]);
    assert SkipSpace(t[..n]) == t[..n];
    ConvertedPadded(used, hex);
  }

  /** The format of valid fields skips blanks. */
  lemma FieldsSkipBlanks(fs: seq<Field>)
    requires ValidFields(fs)
    ensures SkipsBlanks(FieldsFormat(fs))
  {
    if fs != [] {
      assert FieldsFormat(fs)[0] == fs[0].conv;
    }
  }

  /** sscanf reads back the text of valid fields: it stores the value of
      each numeral of an assigning field, in order. */
  lemma {:induction false} ScanFields(fs: seq<Field>, words: seq<string>, tail: string)
    requires ValidFields(fs) && FitFields(fs, words) && TailFits(fs, tail)
    ensures Scan(FieldsFormat(fs), FieldsText(fs, words) + tail) == Assigned(fs, words)
  {
    if fs != [] {
      var later := FieldsText(fs[1..], words[1..]) + tail;
      FieldsRest(fs, words, tail);
      ScanFieldsHead(fs, words, tail);
      ScanSep(fs[0].sep, FieldsFormat(fs[1..]), later);
      ScanFields(fs[1..], words[1..], tail);
    }
  }

  /** The fields after the first are valid and filled, and the text after
      the first separator starts the way the first field needs. */
  lemma FieldsRest(fs: seq<Field>, words: seq<string>, tail: string)
    requires fs != [] && ValidFields(fs) && FitFields(fs, words) && TailFits(fs, tail)
    ensures ValidFields(fs[1..]) && FitFields(fs[1..], words[1..]) && TailFits(fs[1..], tail)
    ensures SkipsBlanks(FieldsFormat(fs[1..]))
    ensures var later := FieldsText(fs[1..], words[1..]) + tail;
      fs[0].sep == [] ==> later == [] || !IsDigitIn(later[0], fs[0].conv.Hex?)
  {
    assert forall i :: 0 <= i < |fs[1..]| ==> fs[1..][i] == fs[i + 1] && words[1..][i] == words[i + 1];
    if |fs| == 1 {
      assert fs[1..] == [] && words[1..] == [];
      EmptyConcat(FieldsText(fs[1..], words[1..]), tail);
    } else {
      assert fs[1..][|fs[1..]| - 1] == fs[|fs| - 1];
    }
    FieldsSkipBlanks(fs[1..]);
  }

  /** The first conversion reads the first numeral and stops at its
      separator. */
  lemma ScanFieldsHead(fs: seq<Field>, words: seq<string>, tail: string)
    requires fs != [] && ValidFields(fs) && FitFields(fs, words)
    requires var later := FieldsText(fs[1..], words[1..]) + tail;
      fs[0].sep == [] ==> later == [] || !IsDigitIn(later[0], fs[0].conv.Hex?)
    ensures Scan(FieldsFormat(fs), FieldsText(fs, words) + tail) ==
      (if Assigning(fs[0].conv) then [Converted(words[0], fs[0].conv.Hex?)] else []) +
      Scan(SepFormat(fs[0].sep) + FieldsFormat(fs[1..]), fs[0].sep + (FieldsText(fs[1..], words[1..]) + tail))
  {
    var f, w := fs[0], words[0];
    var later := FieldsText(fs[1..], words[1..]) + tail;
    Regroup(w, f.sep + FieldsText(fs[1..], words[1..]), tail);
    Regroup(f.sep, FieldsText(fs[1..], words[1..]), tail);
    assert IsConversion(f.conv) && IsPadded(w, f.conv.Hex?);
    assert f.sep != [] ==> (f.sep + later)[0] == f.sep[0];
    MatchConversion(f.conv, w, f.sep + later);
    ScanStep(f.conv, SepFormat(f.sep) + FieldsFormat(fs[1..]), w + (f.sep + later),
             if f.conv.assign then [Converted(w, f.conv.Hex?)] else [], f.sep + later);
  }

  lemma ScanStep(d: Directive, g: seq<Directive>, s: string, stored: seq<u32>, rest: string)
    requires MatchDirective(d, s) == Matched(stored, rest)
    ensures Scan([d] + g, s) == stored + Scan(g, rest)
  {
    assert ([d] + g)[0] == d && ([d] + g)[1..] == g;
  }

  /** Separators, then fields: the shape of a format that starts with
      literal text. */
  lemma ScanLayout(prefix: string, fs: seq<Field>, words: seq<string>, tail: string)
    requires PlainSep(prefix)
    requires ValidFields(fs) && FitFields(fs, words) && TailFits(fs, tail)
    ensures Scan(SepFormat(prefix) + FieldsFormat(fs), prefix + (FieldsText(fs, words) + tail)) == Assigned(fs, words)
  {
    FieldsSkipBlanks(fs);
    ScanSep(prefix, FieldsFormat(fs), FieldsText(fs, words) + tail);
    ScanFields(fs, words, tail);
  }

  lemma {:induction false} SkipSpaceBlanks(blanks: string, s: string)
    requires forall i :: 0 <= i < |blanks| ==> IsSpace(blanks[i])
    ensures SkipSpace(blanks + s) == SkipSpace(s)
  {
    if blanks == [] {
      EmptyConcat(blanks, s);
    } else {
      assert (blanks + s)[0] == blanks[0] && (blanks + s)[1..] == blanks[1..] + s;
      SkipSpaceBlanks(blanks[1..], s);
    }
  }

  /** A format that starts with a numeric conversion reads the same with
      any white space in front of the input. */
  lemma LeadingBlanks(fmt: seq<Directive>, blanks: string, s: string)
    requires fmt != [] && IsConversion(fmt[0])
    requires forall i :: 0 <= i < |blanks| ==> IsSpace(blanks[i])
    ensures Scan(fmt, blanks + s) == Scan(fmt, s)
  {
    SkipSpaceBlanks(blanks, s);
    MatchAfterSpace(fmt[0], blanks + s, s);
  }

  lemma MatchAfterSpace(d: Directive, s: string, t: string)
    requires IsConversion(d) && SkipSpace(s) == SkipSpace(t)
    ensures MatchDirective(d, s) == MatchDirective(d, t)
  {
  }

  /** atoi on a string that starts with a digit: the value of its leading
      decimal digits (no white space or sign can come first). */
  function Atoi(s: string): (n: nat)
    requires s != [] && IsDecDigit(s[0])
    ensures (forall i :: 0 <= i < |s| ==> IsDecDigit(s[i])) ==> n == Value(HexDigits(s), 10)
  {
    var k := DigitRun(s, false);
    assert k == |s| ==> s[..k] == s;
    Value(HexDigits(s[..k]), 10)
  }
}
