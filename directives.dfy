/**
 * The per-cell directive parser of rendercsv (src/main.rs, lines 157-191).
 *
 * A cell's raw text may start with a chain of directives. Each pass of the
 * parser strips one of them and updates the cell's style:
 *   `rot:`   rotate the cell's text by 270 degrees;
 *   `h=N:`   background hue N;
 *   `s=N:`   background saturation N;
 *   `l=N:`   background lightness N.
 * A numeric directive whose payload has no `:` or whose number does not parse
 * stops the parser; the text after the two-character prefix is then shown as is.
 *
 * The number inside a payload is read by Rust's `str::parse::<f32>`. It is not
 * modelled: every operation takes the number reader as a parameter `num`.
 */
module Directives {
  import opened Wrappers

  /** Reads the number of a numeric payload (Rust's `str::parse::<f32>`). */
  type NumParser = string -> Option<real>

  /** The rendering parameters a cell's directives can change. */
  datatype Style = Style(rotate: bool, hue: real, saturation: real, lightness: real)

  /** The three background fields a numeric directive can set. */
  datatype Field = Hue | Saturation | Lightness

  /** The four recognised prefixes. */
  datatype Prefix = RotPrefix | FieldPrefix(field: Field)

  /** What the parser hands to the renderer: the final style and the display text. */
  datatype Parsed = Parsed(style: Style, text: string)

  /** The style before any directive: no rotation, hue and saturation 0, and a
      lightness of 93 for the header row and 100 for data rows. */
  function DefaultStyle(isHeader: bool): Style
  {
    Style(false, 0.0, 0.0, if isHeader then 93.0 else 100.0)
  }

  function Spelling(p: Prefix): string
  {
    match p
    case RotPrefix => "rot:"
    case FieldPrefix(Hue) => "h="
    case FieldPrefix(Saturation) => "s="
    case FieldPrefix(Lightness) => "l="
  }

  /** `s` is a (not necessarily proper) suffix of `t`. */
  predicate IsSuffix(s: string, t: string)
  {
    |s| <= |t| && t[|t| - |s|..] == s
  }

  lemma SuffixTransitive(a: string, b: string, c: string)
    requires IsSuffix(a, b) && IsSuffix(b, c)
    ensures IsSuffix(a, c)
  {
    assert c[|c| - |a|..] == c[|c| - |b|..][|b| - |a|..];
  }

  /** Rust's `str::strip_prefix`. */
  function StripPrefix(s: string, p: string): (r: Option<string>)
    ensures r.Some? <==> p <= s
    ensures r.Some? ==> s == p + r.value
  {
    if p <= s then Some(s[|p|..]) else None
  }

  /** Rust's `str::split_once` on a character: splits at its first occurrence. */
  function SplitOnce(s: string, c: char): (r: Option<(string, string)>)
    ensures r.None? <==> c !in s
    ensures r.Some? ==> s == r.value.0 + [c] + r.value.1 && c !in r.value.0
  {
    if |s| == 0 then None
    else if s[0] == c then Some(([], s[1..]))
    else
      match SplitOnce(s[1..], c)
      case None => None
      case Some((before, after)) => Some(([s[0]] + before, after))
  }

  /** The split at the first `c` is the only split of `s` whose left part is free of `c`. */
  lemma {:induction false} SplitOnceUnique(before: string, after: string, c: char)
    requires c !in before
    ensures SplitOnce(before + [c] + after, c) == Some((before, after))
  {
    var s := before + [c] + after;
    if before == [] {
      assert s[0] == c && s[1..] == after;
    } else {
      assert s[0] == before[0] != c;
      assert s[1..] == before[1..] + [c] + after;
      SplitOnceUnique(before[1..], after, c);
      assert [before[0]] + before[1..] == before;
    }
  }

  /** Which prefix, if any, the text starts with, tried in the source's order
      `rot:`, `h=`, `s=`, `l=`, and the text after it. */
  function Recognize(text: string): (r: Option<(Prefix, string)>)
    ensures r.None? <==> forall p :: !(Spelling(p) <= text)
    ensures r.Some? ==> text == Spelling(r.value.0) + r.value.1
  {
    match StripPrefix(text, "rot:")
    case Some(t) =>
      assert Spelling(RotPrefix) <= text;
      Some((RotPrefix, t))
    case None =>
      match StripPrefix(text, "h=")
      case Some(t) =>
        assert Spelling(FieldPrefix(Hue)) <= text;
        Some((FieldPrefix(Hue), t))
      case None =>
        match StripPrefix(text, "s=")
        case Some(t) =>
          assert Spelling(FieldPrefix(Saturation)) <= text;
          Some((FieldPrefix(Saturation), t))
        case None =>
          match StripPrefix(text, "l=")
          case Some(t) =>
            assert Spelling(FieldPrefix(Lightness)) <= text;
            Some((FieldPrefix(Lightness), t))
          case None => None
  }

  /** The four prefixes start with four different characters, so a text starts
      with at most one of them: the order in which they are tried never matters. */
  lemma AtMostOnePrefix(text: string, p: Prefix, q: Prefix)
    requires Spelling(p) <= text && Spelling(q) <= text
    ensures p == q
  {
    assert Spelling(p)[0] == text[0] == Spelling(q)[0];
  }

  /** The payload of a numeric directive, `<number>:<rest>`: the number read by
      `num` from everything before the first `:`, and the text after that `:`.
      None when there is no `:` or the number does not parse. */
  function Payload(t: string, num: NumParser): (r: Option<(real, string)>)
    ensures r.Some? ==> IsSuffix(r.value.1, t) && |r.value.1| < |t|
  {
    match SplitOnce(t, ':')
    case None => None
    case Some((n, rest)) =>
      match num(n)
      case None => None
      case Some(v) => Some((v, rest))
  }

  /** A payload without any `:` is malformed. */
  lemma PayloadWithoutColon(t: string, num: NumParser)
    requires ':' !in t
    ensures Payload(t, num) == None
  {
  }

  /** A payload `n:rest` with no `:` inside `n` yields exactly what `num` reads
      from `n`, and `rest`. */
  lemma PayloadOf(n: string, rest: string, num: NumParser)
    requires ':' !in n
    ensures Payload(n + ":" + rest, num) ==
              match num(n) case None => None case Some(v) => Some((v, rest))
  {
    SplitOnceUnique(n, rest, ':');
  }

  function Assign(st: Style, f: Field, v: real): Style
  {
    match f
    case Hue => st.(hue := v)
    case Saturation => st.(saturation := v)
    case Lightness => st.(lightness := v)
  }

  /** The parser as a recursive function: one directive per call, starting
      from style `st`. The display text is always a suffix of the input. */
  function Run(st: Style, text: string, num: NumParser): (r: Parsed)
    ensures IsSuffix(r.text, text)
    decreases |text|
  {
    match Recognize(text)
    case None => Parsed(st, text)
    case Some((RotPrefix, t)) =>
      var r := Run(st.(rotate := true), t, num);
      SuffixTransitive(r.text, t, text);
      r
    case Some((FieldPrefix(f), t)) =>
      match Payload(t, num)
      case None => Parsed(st, t)
      case Some((v, rest)) =>
        var r := Run(Assign(st, f, v), rest, num);
        SuffixTransitive(r.text, rest, t);
        SuffixTransitive(r.text, t, text);
        r
  }

  /** The directives of cell text `raw`, from the defaults of its row. */
  function Parse(raw: string, isHeader: bool, num: NumParser): (r: Parsed)
    ensures IsSuffix(r.text, raw)
  {
    Run(DefaultStyle(isHeader), raw, num)
  }

  /** One pass of the parser over a text that starts with prefix `p`. */
  lemma RunPass(st: Style, p: Prefix, t: string, num: NumParser)
    ensures Run(st, Spelling(p) + t, num) ==
              match p
              case RotPrefix => Run(st.(rotate := true), t, num)
              case FieldPrefix(f) =>
                match Payload(t, num)
                case None => Parsed(st, t)
                case Some((v, rest)) => Run(Assign(st, f, v), rest, num)
  {
    RecognizeSpelling(p, t);
  }

  /** The loop of src/main.rs:164-191, which strips one prefix per pass and
      reassigns the five locals. */
  method ParseCell(raw: string, isHeader: bool, num: NumParser)
    returns (doRotate: bool, hue: real, saturation: real, bgLightness: real, text: string)
    ensures Parsed(Style(doRotate, hue, saturation, bgLightness), text) == Parse(raw, isHeader, num)
    ensures IsSuffix(text, raw)
  {
    text := raw;
    doRotate := false;
    hue := 0.0;
    saturation := 0.0;
    bgLightness := if isHeader then 93.0 else 100.0;
    while true
      invariant Run(Style(doRotate, hue, saturation, bgLightness), text, num) == Parse(raw, isHeader, num)
      decreases |text|
    {
      ghost var st := Style(doRotate, hue, saturation, bgLightness);
      var rot := StripPrefix(text, "rot:");
      if rot.Some? {
        RunPass(st, RotPrefix, rot.value, num);
        doRotate := true;
        text := rot.value;
        continue;
      }
      var h := StripPrefix(text, "h=");
      if h.Some? {
        RunPass(st, FieldPrefix(Hue), h.value, num);
        var p := Payload(h.value, num);
        if p.None? {
          text := h.value;
          break;
        }
        hue := p.value.0;
        text := p.value.1;
        continue;
      }
      var s := StripPrefix(text, "s=");
      if s.Some? {
        RunPass(st, FieldPrefix(Saturation), s.value, num);
        var p := Payload(s.value, num);
        if p.None? {
          text := s.value;
          break;
        }
        saturation := p.value.0;
        text := p.value.1;
        continue;
      }
      var l := StripPrefix(text, "l=");
      if l.Some? {
        RunPass(st, FieldPrefix(Lightness), l.value, num);
        var p := Payload(l.value, num);
        if p.None? {
          text := l.value;
          break;
        }
        bgLightness := p.value.0;
        text := p.value.1;
        continue;
      }
      assert Recognize(text).None?;
      break;
    }
  }

  // ---------------------------------------------------------------------------
  // Laws of the parser
  // ---------------------------------------------------------------------------

  /** With no recognised prefix the cell keeps its row's defaults and shows
      its raw text unchanged. */
  lemma NoDirectiveKeepsDefaults(raw: string, isHeader: bool, num: NumParser)
    requires forall p :: !(Spelling(p) <= raw)
    ensures Parse(raw, isHeader, num) ==
              Parsed(Style(false, 0.0, 0.0, if isHeader then 93.0 else 100.0), raw)
  {
  }

  /** A prefix followed by any text is recognised as that prefix. */
  lemma RecognizeSpelling(p: Prefix, rest: string)
    ensures Recognize(Spelling(p) + rest) == Some((p, rest))
  {
    var text := Spelling(p) + rest;
    assert Spelling(p) <= text;
    var q := Recognize(text).value.0;
    AtMostOnePrefix(text, p, q);
  }

  /** A numeric directive with a malformed payload stops the parser: the style
      is left as it was and the payload itself becomes the display text. */
  lemma MalformedPayloadStops(st: Style, f: Field, t: string, num: NumParser)
    requires Payload(t, num).None?
    ensures Run(st, Spelling(FieldPrefix(f)) + t, num) == Parsed(st, t)
  {
    RecognizeSpelling(FieldPrefix(f), t);
  }

  /** A directive as the user writes it. */
  datatype Directive = Rotate | Set(field: Field, numeral: string)

  function Spell(d: Directive): string
  {
    match d
    case Rotate => "rot:"
    case Set(f, n) => Spelling(FieldPrefix(f)) + n + ":"
  }

  /** The text of a chain of directives. */
  function SpellAll(ds: seq<Directive>): string
  {
    if ds == [] then "" else Spell(ds[0]) + SpellAll(ds[1..])
  }

  /** A directive the parser accepts: `rot:`, or a number `num` can read
      that contains no `:`. */
  predicate WellFormed(d: Directive, num: NumParser)
  {
    d.Set? ==> ':' !in d.numeral && num(d.numeral).Some?
  }

  predicate AllWellFormed(ds: seq<Directive>, num: NumParser)
  {
    forall i | 0 <= i < |ds| :: WellFormed(ds[i], num)
  }

  /** The effect of one well-formed directive on the style. */
  function Apply(st: Style, d: Directive, num: NumParser): Style
    requires WellFormed(d, num)
  {
    match d
    case Rotate => st.(rotate := true)
    case Set(f, n) => Assign(st, f, num(n).value)
  }

  /** The effect of a chain of well-formed directives, first to last. */
  function ApplyAll(st: Style, ds: seq<Directive>, num: NumParser): Style
    requires AllWellFormed(ds, num)
    decreases |ds|
  {
    if ds == [] then st else ApplyAll(Apply(st, ds[0], num), ds[1..], num)
  }

  /** One pass over a leading `rot:`: rotate, and go on with the rest. */
  lemma RunRotate(st: Style, rest: string, num: NumParser)
    ensures Run(st, Spell(Rotate) + rest, num) == Run(st.(rotate := true), rest, num)
  {
    RecognizeSpelling(RotPrefix, rest);
  }

  /** One pass over a leading well-formed numeric directive: set the field,
      and go on with the rest. */
  lemma RunSet(st: Style, f: Field, n: string, rest: string, num: NumParser)
    requires WellFormed(Set(f, n), num)
    ensures Run(st, Spell(Set(f, n)) + rest, num) == Run(Assign(st, f, num(n).value), rest, num)
  {
    assert Spell(Set(f, n)) + rest == Spelling(FieldPrefix(f)) + (n + ":" + rest);
    RecognizeSpelling(FieldPrefix(f), n + ":" + rest);
    PayloadOf(n, rest, num);
  }

  /** One pass over any leading well-formed directive. */
  lemma RunApply(st: Style, d: Directive, rest: string, num: NumParser)
    requires WellFormed(d, num)
    ensures Run(st, Spell(d) + rest, num) == Run(Apply(st, d, num), rest, num)
  {
    if d.Rotate? {
      RunRotate(st, rest, num);
    } else {
      RunSet(st, d.field, d.numeral, rest, num);
    }
  }

  /** Reading back a spelled chain of well-formed directives applies each of
      them in order and continues on the text that follows. */
  lemma {:induction false} RunSpelled(st: Style, ds: seq<Directive>, tail: string, num: NumParser)
    requires AllWellFormed(ds, num)
    ensures Run(st, SpellAll(ds) + tail, num) == Run(ApplyAll(st, ds, num), tail, num)
    decreases |ds|
  {
    if ds != [] {
      var rest := SpellAll(ds[1..]) + tail;
      calc {
        SpellAll(ds) + tail;
        (Spell(ds[0]) + SpellAll(ds[1..])) + tail;
        Spell(ds[0]) + rest;
      }
      assert WellFormed(ds[0], num);
      RunApply(st, ds[0], rest, num);
      RunSpelled(Apply(st, ds[0], num), ds[1..], tail, num);
    } else {
      assert SpellAll(ds) + tail == tail;
    }
  }

  /** A cell whose text is a chain of well-formed directives followed by text
      with no directive prefix gets exactly those directives' style and shows
      that text. */
  lemma ParseSpelled(ds: seq<Directive>, tail: string, isHeader: bool, num: NumParser)
    requires AllWellFormed(ds, num)
    requires forall p :: !(Spelling(p) <= tail)
    ensures Parse(SpellAll(ds) + tail, isHeader, num) ==
              Parsed(ApplyAll(DefaultStyle(isHeader), ds, num), tail)
  {
    RunSpelled(DefaultStyle(isHeader), ds, tail, num);
  }

  function Get(st: Style, f: Field): real
  {
    match f
    case Hue => st.hue
    case Saturation => st.saturation
    case Lightness => st.lightness
  }

  lemma {:induction false} ApplyAllAppend(st: Style, ds: seq<Directive>, d: Directive, num: NumParser)
    requires AllWellFormed(ds + [d], num)
    ensures AllWellFormed(ds, num) && WellFormed(d, num)
    ensures ApplyAll(st, ds + [d], num) == Apply(ApplyAll(st, ds, num), d, num)
    decreases |ds|
  {
    assert (ds + [d])[|ds|] == d;
    assert forall i | 0 <= i < |ds| :: (ds + [d])[i] == ds[i];
    if ds != [] {
      assert (ds + [d])[1..] == ds[1..] + [d];
      ApplyAllAppend(Apply(st, ds[0], num), ds[1..], d, num);
    }
  }

  /** Directives for other fields than `f` (and `rot:`) leave `f` alone. */
  lemma {:induction false} OtherFieldsKeep(st: Style, ds: seq<Directive>, f: Field, num: NumParser)
    requires AllWellFormed(ds, num)
    requires forall k | 0 <= k < |ds| :: !(ds[k].Set? && ds[k].field == f)
    ensures Get(ApplyAll(st, ds, num), f) == Get(st, f)
    decreases |ds|
  {
    if ds != [] {
      assert !(ds[0].Set? && ds[0].field == f);
      OtherFieldsKeep(Apply(st, ds[0], num), ds[1..], f, num);
    }
  }

  lemma {:induction false} ApplyAllConcat(st: Style, ds: seq<Directive>, ds2: seq<Directive>, num: NumParser)
    requires AllWellFormed(ds + ds2, num)
    ensures AllWellFormed(ds, num) && AllWellFormed(ds2, num)
    ensures ApplyAll(st, ds + ds2, num) == ApplyAll(ApplyAll(st, ds, num), ds2, num)
    decreases |ds|
  {
    assert forall k | 0 <= k < |ds| :: (ds + ds2)[k] == ds[k];
    assert forall k | 0 <= k < |ds2| :: (ds + ds2)[|ds| + k] == ds2[k];
    if ds != [] {
      assert (ds + ds2)[0] == ds[0];
      assert (ds + ds2)[1..] == ds[1..] + ds2;
      ApplyAllConcat(Apply(st, ds[0], num), ds[1..], ds2, num);
    } else {
      assert ds + ds2 == ds2;
    }
  }

  /** The last directive for a field decides it, whatever directives for
      other fields follow: `h=1:h=2:` leaves hue 2, and so does `h=2:s=3:`. */
  lemma LastSetWins(st: Style, ds: seq<Directive>, f: Field, n: string, ds2: seq<Directive>, num: NumParser)
    requires AllWellFormed(ds + [Set(f, n)] + ds2, num)
    requires forall k | 0 <= k < |ds2| :: !(ds2[k].Set? && ds2[k].field == f)
    ensures num(n) == Some(Get(ApplyAll(st, ds + [Set(f, n)] + ds2, num), f))
  {
    ApplyAllConcat(st, ds + [Set(f, n)], ds2, num);
    ApplyAllAppend(st, ds, Set(f, n), num);
    OtherFieldsKeep(ApplyAll(st, ds + [Set(f, n)], num), ds2, f, num);
  }

  /** Once a `rot:` has been applied, the cell stays rotated: repeating it, or
      any later directive, changes nothing about rotation. */
  lemma {:induction false} RotationSticks(st: Style, text: string, num: NumParser)
    requires st.rotate
    ensures Run(st, text, num).style.rotate
    decreases |text|
  {
    match Recognize(text)
    case None =>
    case Some((RotPrefix, t)) =>
      RotationSticks(st.(rotate := true), t, num);
    case Some((FieldPrefix(f), t)) =>
      match Payload(t, num)
      case None =>
      case Some((v, rest)) =>
        RotationSticks(Assign(st, f, v), rest, num);
  }

  /** The display text starts with no prefix at all, or the parser stopped on
      it: it is a malformed payload that followed `h=`, `s=` or `l=`. */
  predicate StoppedOnPayload(s: string, text: string, num: NumParser)
  {
    Payload(s, num).None? &&
    (IsSuffix("h=" + s, text) || IsSuffix("s=" + s, text) || IsSuffix("l=" + s, text))
  }

  /** The parser ends in one of two ways: on text with no recognised prefix,
      or on a malformed payload of a numeric directive. */
  lemma {:induction false} HowParsingEnds(st: Style, text: string, num: NumParser)
    ensures Recognize(Run(st, text, num).text).None?
         || StoppedOnPayload(Run(st, text, num).text, text, num)
    decreases |text|
  {
    match Recognize(text)
    case None =>
    case Some((RotPrefix, t)) =>
      HowParsingEnds(st.(rotate := true), t, num);
      StoppedOnPayloadWidens(Run(st, text, num).text, t, text, num);
    case Some((FieldPrefix(f), t)) =>
      match Payload(t, num)
      case None =>
        assert IsSuffix(Spelling(FieldPrefix(f)) + t, text);
      case Some((v, rest)) =>
        HowParsingEnds(Assign(st, f, v), rest, num);
        SuffixTransitive(rest, t, text);
        StoppedOnPayloadWidens(Run(st, text, num).text, rest, text, num);
  }

  lemma StoppedOnPayloadWidens(s: string, t: string, text: string, num: NumParser)
    requires IsSuffix(t, text)
    ensures StoppedOnPayload(s, t, num) ==> StoppedOnPayload(s, text, num)
  {
    if StoppedOnPayload(s, t, num) {
      if IsSuffix("h=" + s, t) {
        SuffixTransitive("h=" + s, t, text);
      } else if IsSuffix("s=" + s, t) {
        SuffixTransitive("s=" + s, t, text);
      } else {
        SuffixTransitive("l=" + s, t, text);
      }
    }
  }

  /** Parsing again a display text at which the parser ended cleanly changes
      nothing. */
  lemma ReparseCleanEnd(st: Style, st': Style, text: string, num: NumParser)
    requires forall p :: !(Spelling(p) <= Run(st, text, num).text)
    ensures Run(st', Run(st, text, num).text, num) == Parsed(st', Run(st, text, num).text)
  {
  }

  // ---------------------------------------------------------------------------
  // Worked cases
  // ---------------------------------------------------------------------------

  /** `rot:rot:Vertical`: rotated once and for all, displays `Vertical`. */
  lemma RotateTwiceExample(isHeader: bool, num: NumParser)
    ensures Parse("rot:rot:Vertical", isHeader, num) ==
              Parsed(DefaultStyle(isHeader).(rotate := true), "Vertical")
  {
    var ds := [Rotate, Rotate];
    assert ds[1..] == [Rotate] && ds[1..][1..] == [];
    assert SpellAll(ds) + "Vertical" == "rot:rot:Vertical";
    ParseSpelled(ds, "Vertical", isHeader, num);
  }

  /** `h=30:Label` in a header cell: hue 30, header defaults otherwise. */
  lemma HeaderHueExample(num: NumParser)
    requires num("30") == Some(30.0)
    ensures Parse("h=30:Label", true, num) == Parsed(Style(false, 30.0, 0.0, 93.0), "Label")
  {
    var ds := [Set(Hue, "30")];
    assert ds[1..] == [];
    assert SpellAll(ds) + "Label" == "h=30:Label";
    ParseSpelled(ds, "Label", true, num);
  }

  /** `h=1:h=2:x`: the later hue overwrites the earlier one. */
  lemma HueOverwriteExample(isHeader: bool, num: NumParser)
    requires num("1") == Some(1.0) && num("2") == Some(2.0)
    ensures Parse("h=1:h=2:x", isHeader, num) == Parsed(DefaultStyle(isHeader).(hue := 2.0), "x")
  {
    var ds := [Set(Hue, "1"), Set(Hue, "2")];
    assert ds[1..] == [Set(Hue, "2")] && ds[1..][1..] == [];
    assert SpellAll(ds) + "x" == "h=1:h=2:x";
    ParseSpelled(ds, "x", isHeader, num);
  }

  /** `h=10:rot:text`: the prefixes are tried afresh on every pass. */
  lemma HueThenRotateExample(isHeader: bool, num: NumParser)
    requires num("10") == Some(10.0)
    ensures Parse("h=10:rot:text", isHeader, num) ==
              Parsed(DefaultStyle(isHeader).(hue := 10.0, rotate := true), "text")
  {
    var ds := [Set(Hue, "10"), Rotate];
    assert ds[1..] == [Rotate] && ds[1..][1..] == [];
    assert SpellAll(ds) + "text" == "h=10:rot:text";
    ParseSpelled(ds, "text", isHeader, num);
  }

  /** `h=10`: no `:` after the number, so the hue stays and `10` is shown. */
  lemma MissingColonExample(isHeader: bool, num: NumParser)
    ensures Parse("h=10", isHeader, num) == Parsed(DefaultStyle(isHeader), "10")
  {
    assert "h=10" == Spelling(FieldPrefix(Hue)) + "10";
    PayloadWithoutColon("10", num);
    MalformedPayloadStops(DefaultStyle(isHeader), Hue, "10", num);
  }

  /** `h=:x`: the empty number does not parse, so `:x` is shown. */
  lemma EmptyNumberExample(isHeader: bool, num: NumParser)
    requires num("") == None
    ensures Parse("h=:x", isHeader, num) == Parsed(DefaultStyle(isHeader), ":x")
  {
    assert "h=:x" == Spelling(FieldPrefix(Hue)) + ":x";
    assert ":x" == "" + ":" + "x";
    PayloadOf("", "x", num);
    MalformedPayloadStops(DefaultStyle(isHeader), Hue, ":x", num);
  }

  /** `h=notanumber:L`: the number does not parse, so `notanumber:L` is shown. */
  lemma BadNumberExample(isHeader: bool, num: NumParser)
    requires num("notanumber") == None
    ensures Parse("h=notanumber:L", isHeader, num) == Parsed(DefaultStyle(isHeader), "notanumber:L")
  {
    assert "h=notanumber:L" == Spelling(FieldPrefix(Hue)) + "notanumber:L";
    assert "notanumber:L" == "notanumber" + ":" + "L";
    PayloadOf("notanumber", "L", num);
    MalformedPayloadStops(DefaultStyle(isHeader), Hue, "notanumber:L", num);
  }

  /** `h=h=5:x`: `h=5` is not a number, so `h=5:x` is shown. */
  lemma NestedDirectiveExample(isHeader: bool, num: NumParser)
    requires num("h=5") == None
    ensures Parse("h=h=5:x", isHeader, num) == Parsed(DefaultStyle(isHeader), "h=5:x")
  {
    assert "h=h=5:x" == Spelling(FieldPrefix(Hue)) + "h=5:x";
    assert "h=5:x" == "h=5" + ":" + "x";
    PayloadOf("h=5", "x", num);
    MalformedPayloadStops(DefaultStyle(isHeader), Hue, "h=5:x", num);
  }

  /** `h=5:x`: hue 5, `x` is shown. */
  lemma HueFiveExample(isHeader: bool, num: NumParser)
    requires num("5") == Some(5.0)
    ensures Parse("h=5:x", isHeader, num) == Parsed(DefaultStyle(isHeader).(hue := 5.0), "x")
  {
    var ds := [Set(Hue, "5")];
    assert ds[1..] == [];
    assert SpellAll(ds) + "x" == "h=5:x";
    ParseSpelled(ds, "x", isHeader, num);
  }

  /** Parsing is not idempotent: the display text `h=5:x` of `h=h=5:x`
      would itself set hue 5 and show `x` when parsed again. */
  lemma NotIdempotentExample(isHeader: bool, num: NumParser)
    requires num("h=5") == None && num("5") == Some(5.0)
    ensures Parse(Parse("h=h=5:x", isHeader, num).text, isHeader, num) ==
              Parsed(DefaultStyle(isHeader).(hue := 5.0), "x")
  {
    NestedDirectiveExample(isHeader, num);
    HueFiveExample(isHeader, num);
  }
}
