/**
  The one-line description of a classified cell (`toString`): topology
  class, the decider's sign for a saddle cell, and the rotation index. A
  reader for the same format shows that the line records exactly those
  three things.
 */
module Description {
  import opened CellTypes

  const Prefix: string := "Pattern Number  = "
  const Infix: string := " Configuration = "

  function TypeLabel(t: PatternType): string
  {
    match t
    case Pattern0 => "0"
    case Pattern1 => "1"
    case Pattern2S => "2S"
    case Pattern2D => "2D"
    case Pattern3 => "3"
    case Pattern4 => "4"
  }

  function SignLabel(d: Pattern2dType): string
  {
    match d
    case Pattern2dP => "D>0"
    case Pattern2dM => "D<0"
    case Pattern2dE => "D=0"
  }

  /** Decimal form of a rotation index; every index is a single digit. */
  function DigitOf(n: CornerIndex): char
  {
    "0123"[n]
  }

  /** What follows the class tag: a space, the sign for a saddle cell only, the configuration and a newline. */
  function Remainder(p: Pattern): string
  {
    " " + (if p.pattern == Pattern2D then SignLabel(p.pattern2d) else "") + Infix + [DigitOf(p.patternNumber)] + "\n"
  }

  function ToString(p: Pattern): (s: string)
    ensures Prefix <= s
    ensures s[|s| - 1] == '\n'
    ensures s[|s| - 2] == DigitOf(p.patternNumber)
    ensures |s| == |Prefix| + |TypeLabel(p.pattern)| + 1 + (if p.pattern == Pattern2D then 3 else 0) + |Infix| + 2
  {
    Prefix + (TypeLabel(p.pattern) + Remainder(p))
  }

  /** What a description records: the class, the sign only for a saddle cell, the index. */
  datatype Summary = Summary(pattern: PatternType, sign: Option<Pattern2dType>, configuration: CornerIndex)

  function SummaryOf(p: Pattern): Summary
  {
    Summary(p.pattern, if p.pattern == Pattern2D then Some(p.pattern2d) else None, p.patternNumber)
  }

  /** The class tag at the start of `s`, and its length. */
  function ReadLabel(s: string): (r: Option<(PatternType, nat)>)
    ensures r.Some? ==> r.value.1 <= |s| && s[..r.value.1] == TypeLabel(r.value.0)
  {
    if |s| >= 2 && s[..2] == "2S" then Some((Pattern2S, 2))
    else if |s| >= 2 && s[..2] == "2D" then Some((Pattern2D, 2))
    else if |s| >= 1 && s[0] == '0' then Some((Pattern0, 1))
    else if |s| >= 1 && s[0] == '1' then Some((Pattern1, 1))
    else if |s| >= 1 && s[0] == '3' then Some((Pattern3, 1))
    else if |s| >= 1 && s[0] == '4' then Some((Pattern4, 1))
    else None
  }

  function ReadSign(s: string): (r: Option<Pattern2dType>)
    ensures r.Some? ==> s == SignLabel(r.value)
  {
    if s == "D>0" then Some(Pattern2dP)
    else if s == "D<0" then Some(Pattern2dM)
    else if s == "D=0" then Some(Pattern2dE)
    else None
  }

  function ReadDigit(ch: char): (r: Option<CornerIndex>)
    ensures r.Some? ==> DigitOf(r.value) == ch
  {
    if ch == '0' then Some(0)
    else if ch == '1' then Some(1)
    else if ch == '2' then Some(2)
    else if ch == '3' then Some(3)
    else None
  }

  /** Reads `" Configuration = "`, one digit and the final newline. */
  function ReadConfiguration(s: string): (r: Option<CornerIndex>)
    ensures r.Some? ==> s == Infix + [DigitOf(r.value)] + "\n"
  {
    if |s| == |Infix| + 2 && s[..|Infix|] == Infix && s[|Infix| + 1] == '\n' then
      var r := ReadDigit(s[|Infix|]);
      assert r.Some? ==> s == s[..|Infix|] + [s[|Infix|]] + [s[|Infix| + 1]];
      r
    else None
  }

  /** Reads what follows the class tag: a space, the sign for a saddle cell, the configuration. */
  function ReadTail(t: PatternType, s: string): (r: Option<(Option<Pattern2dType>, CornerIndex)>)
  {
    if |s| == 0 || s[0] != ' ' then None
    else if t == Pattern2D then
      if |s| < 4 then None
      else match ReadSign(s[1..4])
        case None => None
        case Some(d) =>
          match ReadConfiguration(s[4..])
          case None => None
          case Some(n) => Some((Some(d), n))
    else
      match ReadConfiguration(s[1..])
      case None => None
      case Some(n) => Some((None, n))
  }

  /** The reader of the description format. */
  function ParseDescription(s: string): Option<Summary>
  {
    if !(Prefix <= s) then None
    else
      var body := s[|Prefix|..];
      match ReadLabel(body)
      case None => None
      case Some(tag) =>
        match ReadTail(tag.0, body[tag.1..])
        case None => None
        case Some(tail) => Some(Summary(tag.0, tail.0, tail.1))
  }

  lemma DropPrefix(a: string, b: string)
    ensures (a + b)[|a|..] == b
  {
  }

  lemma ReadLabelBack(t: PatternType, rest: string)
    requires |rest| >= 1 && rest[0] == ' '
    ensures ReadLabel(TypeLabel(t) + rest) == Some((t, |TypeLabel(t)|))
  {
    var s := TypeLabel(t) + rest;
    assert s[0] == TypeLabel(t)[0];
    if |TypeLabel(t)| == 2 {
      assert s[..2] == TypeLabel(t);
    } else {
      assert s[1] == ' ';
      assert s[..2][1] == ' ';
    }
  }

  lemma ReadConfigurationBack(n: CornerIndex)
    ensures ReadConfiguration(Infix + [DigitOf(n)] + "\n") == Some(n)
  {
    var s := Infix + [DigitOf(n)] + "\n";
    assert s[..|Infix|] == Infix;
    assert s[|Infix|] == DigitOf(n);
  }

  lemma ReadTailBack(p: Pattern)
    ensures ReadTail(p.pattern, Remainder(p)) == Some((SummaryOf(p).sign, p.patternNumber))
  {
    var sign := if p.pattern == Pattern2D then SignLabel(p.pattern2d) else "";
    var conf := Infix + [DigitOf(p.patternNumber)] + "\n";
    var tail := Remainder(p);
    assert tail == " " + sign + conf;
    ReadConfigurationBack(p.patternNumber);
    if p.pattern == Pattern2D {
      assert tail[1..4] == sign;
      assert tail[4..] == conf;
    } else {
      assert tail[1..] == conf;
    }
  }

  /** Reading a description back recovers the class, the saddle sign and the index. */
  lemma DescriptionRoundTrip(p: Pattern)
    ensures ParseDescription(ToString(p)) == Some(SummaryOf(p))
  {
    var tag := TypeLabel(p.pattern);
    var tail := Remainder(p);
    DropPrefix(Prefix, tag + tail);
    ReadLabelBack(p.pattern, tail);
    DropPrefix(tag, tail);
    ReadTailBack(p);
  }

  /** Two cells get the same description exactly when they agree on class, saddle sign and index. */
  lemma DescriptionDeterminesSummary(p: Pattern, q: Pattern)
    ensures ToString(p) == ToString(q) <==> SummaryOf(p) == SummaryOf(q)
  {
    if ToString(p) == ToString(q) {
      DescriptionRoundTrip(p);
      DescriptionRoundTrip(q);
    }
  }
}
