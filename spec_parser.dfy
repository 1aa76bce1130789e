/**
 * `getRetentionsFromSpec` (main.go:93-122): a retention specification such
 * as "y5 m24 w8 d21 h72" is split into white-space separated fields; each
 * field is a letter naming the retention and the number of periods to keep.
 * A field shorter than two bytes or whose remainder is not an integer is an
 * error; a field whose letter is none of h, d, w, m, y is dropped.
 */
module SpecParser {
  import opened Text
  import opened Periods
  import opened Retentions

  /** Why a specification was refused, with the offending field. */
  datatype SpecError = FieldTooShort(field: string) | InvalidCount(field: string)

  datatype Result<T> = Success(value: T) | Failure(error: SpecError)

  /** The retention a field's letter names, if any. */
  function KindOfLetter(c: char): Option<Kind> {
    match c
    case 'h' => Some(Hourly)
    case 'd' => Some(Daily)
    case 'w' => Some(Weekly)
    case 'm' => Some(Monthly)
    case 'y' => Some(Yearly)
    case _ => None
  }

  /** The letter that names retention k in a specification. */
  function LetterOf(k: Kind): (c: char)
    ensures KindOfLetter(c) == Some(k)
    ensures c as int < 0x80
  {
    match k
    case Hourly => 'h'
    case Daily => 'd'
    case Weekly => 'w'
    case Monthly => 'm'
    case Yearly => 'y'
  }

  /**
   * One field: too short when under two bytes; an invalid count when the
   * bytes after the first are not an integer (always so when the first
   * character takes more than one byte); else the retention its letter
   * names, or nothing for another letter.
   */
  function ParseField(f: string): (r: Result<Option<Policy>>)
    ensures r.Failure? <==> Utf8Length(f) < 2 || f[0] as int >= 0x80 || Atoi(f[1..]).None?
    ensures r.Failure? ==> r.error.field == f && (r.error.FieldTooShort? <==> Utf8Length(f) < 2)
    ensures r == Success(None) <==>
              Utf8Length(f) >= 2 && f[0] as int < 0x80 && Atoi(f[1..]).Some? && KindOfLetter(f[0]).None?
    ensures r.Success? && r.value.Some? ==>
              |f| >= 2 && KindOfLetter(f[0]) == Some(r.value.value.alias)
              && WellFormed(r.value.value) && Atoi(f[1..]) == Some(r.value.value.keep)
  {
    if Utf8Length(f) < 2 then Failure(FieldTooShort(f))
    else if f[0] as int >= 0x80 then Failure(InvalidCount(f))
    else match Atoi(f[1..])
      case None => Failure(InvalidCount(f))
      case Some(n) =>
        match KindOfLetter(f[0])
        case None => Success(None)
        case Some(k) => Success(Some(Policy(k, DurationOf(k), n)))
  }

  /** The fields in order: the first bad field is the error, else the retentions named. */
  function ParseFields(fs: seq<string>): Result<seq<Policy>> {
    if fs == [] then Success([])
    else
      match ParseField(fs[0])
      case Failure(e) => Failure(e)
      case Success(o) =>
        match ParseFields(fs[1..])
        case Failure(e) => Failure(e)
        case Success(ps) => Success(if o.Some? then [o.value] + ps else ps)
  }

  /** The retentions a specification names, or why it is refused. */
  function ParseSpec(spec: string): Result<seq<Policy>> {
    ParseFields(Fields(spec))
  }

  /** A retention written as a field: its letter, then its keep count in decimal. */
  function FormatField(p: Policy): string {
    [LetterOf(p.alias)] + Itoa(p.keep)
  }

  function FormatFields(ps: seq<Policy>): seq<string> {
    if ps == [] then [] else [FormatField(ps[0])] + FormatFields(ps[1..])
  }

  /** A specification naming the retentions ps, in order, separated by single spaces. */
  function FormatSpec(ps: seq<Policy>): string {
    JoinFields(FormatFields(ps))
  }

  /** A retention the parser can produce: its duration is its kind's and its keep count fits a 64-bit `int`. */
  predicate Writable(p: Policy) {
    WellFormed(p) && MinInt <= p.keep <= MaxInt
  }

  /**
   * The specification is refused exactly when one of its fields is bad, and
   * the error is that of the first bad field.
   */
  lemma {:induction false} FirstBadFieldIsTheError(fs: seq<string>)
    ensures ParseFields(fs).Failure? <==> exists i :: 0 <= i < |fs| && ParseField(fs[i]).Failure?
    ensures ParseFields(fs).Failure? ==>
              exists i :: 0 <= i < |fs| && ParseField(fs[i]) == Failure(ParseFields(fs).error)
                          && forall j :: 0 <= j < i ==> ParseField(fs[j]).Success?
  {
    if fs != [] {
      FirstBadFieldIsTheError(fs[1..]);
      assert forall i :: 0 < i < |fs| ==> fs[i] == fs[1..][i - 1];
      if ParseField(fs[0]).Success? && ParseFields(fs[1..]).Failure? {
        var i :| 0 <= i < |fs[1..]| && ParseField(fs[1..][i]) == Failure(ParseFields(fs[1..]).error)
                 && forall j :: 0 <= j < i ==> ParseField(fs[1..][j]).Success?;
        assert ParseField(fs[i + 1]) == Failure(ParseFields(fs).error);
        assert forall j :: 0 <= j < i + 1 ==> ParseField(fs[j]).Success?;
      }
    }
  }

  /** A well-formed retention written as a field parses back to itself. */
  lemma ParseFieldOfFormat(p: Policy)
    requires Writable(p)
    ensures ParseField(FormatField(p)) == Success(Some(p))
  {
    var f := FormatField(p);
    AtoiOfItoa(p.keep);
    assert f[1..] == Itoa(p.keep);
    assert Utf8Length(f) >= 2 by {
      assert |Itoa(p.keep)| >= 1;
      assert f[1..] != [];
    }
  }

  lemma {:induction false} FormatFieldsAreWords(ps: seq<Policy>)
    requires forall i :: 0 <= i < |ps| ==> Writable(ps[i])
    ensures |FormatFields(ps)| == |ps|
    ensures forall i :: 0 <= i < |ps| ==> FormatFields(ps)[i] == FormatField(ps[i]) && IsWord(FormatField(ps[i]))
  {
    if ps != [] {
      FormatFieldsAreWords(ps[1..]);
      forall i | 0 <= i < |ps|
        ensures IsWord(FormatField(ps[i]))
      {
        ItoaIsWord(ps[i].keep);
      }
    }
  }

  lemma ItoaIsWord(n: int)
    ensures forall i :: 0 <= i < |Itoa(n)| ==> !IsSpace(Itoa(n)[i])
  {
  }

  lemma {:induction false} ParseFormattedFields(ps: seq<Policy>)
    requires forall i :: 0 <= i < |ps| ==> Writable(ps[i])
    ensures ParseFields(FormatFields(ps)) == Success(ps)
  {
    if ps != [] {
      var head, tail := FormatField(ps[0]), FormatFields(ps[1..]);
      ParseFieldOfFormat(ps[0]);
      ParseFormattedFields(ps[1..]);
      ParseFieldsCons(head, tail, ps[0], ps[1..]);
      assert FormatFields(ps) == [head] + tail;
      assert [ps[0]] + ps[1..] == ps;
    }
  }

  /** A field naming p followed by fields naming ps names p and then ps. */
  lemma ParseFieldsCons(f: string, fs: seq<string>, p: Policy, ps: seq<Policy>)
    requires ParseField(f) == Success(Some(p)) && ParseFields(fs) == Success(ps)
    ensures ParseFields([f] + fs) == Success([p] + ps)
  {
    assert ([f] + fs)[0] == f && ([f] + fs)[1..] == fs;
  }

  /** Writing retentions as a specification and parsing it gives them back, in order. */
  lemma SpecRoundTrip(ps: seq<Policy>)
    requires forall i :: 0 <= i < |ps| ==> Writable(ps[i])
    ensures ParseSpec(FormatSpec(ps)) == Success(ps)
  {
    FormatFieldsAreWords(ps);
    FieldsOfJoin(FormatFields(ps));
    ParseFormattedFields(ps);
  }

  /** An empty or blank specification names no retention. */
  lemma BlankSpecIsEmpty(spec: string)
    requires forall i :: 0 <= i < |spec| ==> IsSpace(spec[i])
    ensures ParseSpec(spec) == Success([])
  {
    BlankHasNoFields(spec);
  }

  /** A field with a valid count and any other letter is skipped without error. */
  lemma UnknownLetterSkipped(f: string, fs: seq<string>)
    requires |f| >= 2 && f[0] as int < 0x80 && KindOfLetter(f[0]) == None && Atoi(f[1..]).Some?
    ensures ParseFields([f] + fs) == ParseFields(fs)
  {
    assert Utf8Length(f) >= 2;
    assert ([f] + fs)[1..] == fs;
  }

  function DefaultPolicies(): seq<Policy> {
    [Policy(Yearly, 0, 5), Policy(Monthly, 0, 24), Policy(Weekly, 7 * Day, 8),
     Policy(Daily, Day, 21), Policy(Hourly, Hour, 72)]
  }

  lemma DefaultFields()
    ensures FormatFields(DefaultPolicies()) == ["y5", "m24", "w8", "d21", "h72"]
  {
    var ps := DefaultPolicies();
    DefaultCounts();
    assert FormatField(ps[0]) == "y5" && FormatField(ps[1]) == "m24" && FormatField(ps[2]) == "w8";
    assert FormatField(ps[3]) == "d21" && FormatField(ps[4]) == "h72";
    assert ps[4..][1..] == [];
    assert FormatFields(ps[4..]) == ["h72"];
    assert ps[3..][1..] == ps[4..];
    assert FormatFields(ps[3..]) == ["d21", "h72"];
    assert ps[2..][1..] == ps[3..] && ps[1..][1..] == ps[2..];
    assert FormatFields(ps[2..]) == ["w8", "d21", "h72"];
    assert FormatFields(ps[1..]) == ["m24", "w8", "d21", "h72"];
  }

  lemma DefaultCounts()
    ensures Itoa(24) == "24" && Itoa(21) == "21" && Itoa(72) == "72" && Itoa(5) == "5" && Itoa(8) == "8"
  {
    assert Digits(24) == Digits(2) + "4" && Digits(21) == Digits(2) + "1" && Digits(72) == Digits(7) + "2";
  }

  lemma DefaultJoin()
    ensures JoinFields(["y5", "m24", "w8", "d21", "h72"]) == "y5 m24 w8 d21 h72"
  {
    var fs := ["y5", "m24", "w8", "d21", "h72"];
    assert JoinFields(fs[4..]) == "h72";
    assert JoinFields(fs[3..]) == "d21 h72";
    assert JoinFields(fs[2..]) == "w8 d21 h72";
    assert JoinFields(fs[1..]) == "m24 w8 d21 h72";
  }

  /** The program's default specification: five years, 24 months, eight weeks, 21 days and 72 hours. */
  lemma DefaultSpec()
    ensures ParseSpec("y5 m24 w8 d21 h72") == Success([
              Policy(Yearly, 0, 5), Policy(Monthly, 0, 24), Policy(Weekly, 7 * Day, 8),
              Policy(Daily, Day, 21), Policy(Hourly, Hour, 72)])
  {
    var ps := DefaultPolicies();
    assert Writable(ps[0]) && Writable(ps[1]) && Writable(ps[2]) && Writable(ps[3]) && Writable(ps[4]);
    DefaultFields();
    DefaultJoin();
    SpecRoundTrip(ps);
  }

  /** Fields that are too short, or whose count is not an integer, are refused. */
  lemma BadFields()
    ensures ParseField("h") == Failure(FieldTooShort("h"))
    ensures ParseField("hx") == Failure(InvalidCount("hx"))
    ensures ParseField("d+") == Failure(InvalidCount("d+"))
    ensures ParseField("x5") == Success(None)
    ensures ParseField("h-3") == Success(Some(Policy(Hourly, Hour, -3)))
  {
    assert "h-3"[1..] == "-3" && "-3"[1..] == "3";
    assert DigitsValue("3") == 3;
    assert "x5"[1..] == "5" && DigitsValue("5") == 5;
  }

  /**
   * `len` counts bytes: a single two-byte character passes the length test
   * and is then refused as an invalid count.
   */
  lemma ByteLengthOfField()
    ensures ParseField("\U{00E9}") == Failure(InvalidCount("\U{00E9}"))
  {
    assert Utf8Length("\U{00E9}") == 2;
  }

  /** The retentions acc, followed by those of a parse result when it succeeded. */
  function PrependTo(acc: seq<Policy>, r: Result<seq<Policy>>): Result<seq<Policy>> {
    match r
    case Failure(e) => Failure(e)
    case Success(ps) => Success(acc + ps)
  }

  /** Parsing the fields from i on, one field at a time. */
  lemma ParseStep(acc: seq<Policy>, fs: seq<string>, i: int)
    requires 0 <= i < |fs|
    ensures ParseField(fs[i]).Failure? ==> PrependTo(acc, ParseFields(fs[i..])) == Failure(ParseField(fs[i]).error)
    ensures ParseField(fs[i]) == Success(None) ==>
              PrependTo(acc, ParseFields(fs[i..])) == PrependTo(acc, ParseFields(fs[i + 1..]))
    ensures ParseField(fs[i]).Success? && ParseField(fs[i]).value.Some? ==>
              PrependTo(acc, ParseFields(fs[i..])) == PrependTo(acc + [ParseField(fs[i]).value.value], ParseFields(fs[i + 1..]))
  {
    assert fs[i..][0] == fs[i] && fs[i..][1..] == fs[i + 1..];
    match ParseFields(fs[i + 1..])
    case Failure(e) =>
    case Success(ps) =>
      if ParseField(fs[i]).Success? && ParseField(fs[i]).value.Some? {
        var p := ParseField(fs[i]).value.value;
        assert acc + ([p] + ps) == (acc + [p]) + ps;
      }
  }

  /**
   * The parser's loop: walk the fields in order, create a retention for each
   * one with a known letter, and stop at the first bad field.  On success the
   * retentions are new, empty, and carry the parsed policies in order.
   */
  method GetRetentionsFromSpec(spec: string) returns (rs: seq<Retention>, err: Option<SpecError>)
    ensures ParseSpec(spec).Failure? ==> err == Some(ParseSpec(spec).error) && rs == []
    ensures ParseSpec(spec).Success? ==> err == None && |rs| == |ParseSpec(spec).value|
    ensures ParseSpec(spec).Success? ==> forall i :: 0 <= i < |rs| ==> rs[i].Config() == ParseSpec(spec).value[i]
    ensures forall i :: 0 <= i < |rs| ==> fresh(rs[i]) && rs[i].snaps == map[]
    ensures forall i, j :: 0 <= i < j < |rs| ==> rs[i] != rs[j]
  {
    var fs := Fields(spec);
    var acc: seq<Retention> := [];
    var i := 0;
    assert fs[i..] == fs;
    assert Configs(acc) == [];
    assert PrependTo(Configs(acc), ParseFields(fs)) == ParseFields(fs) by {
      match ParseFields(fs)
      case Failure(e) =>
      case Success(ps) => assert [] + ps == ps;
    }
    while i < |fs|
      invariant 0 <= i <= |fs|
      invariant ParseFields(fs) == PrependTo(Configs(acc), ParseFields(fs[i..]))
      invariant forall j :: 0 <= j < |acc| ==> fresh(acc[j]) && acc[j].snaps == map[]
      invariant forall j, k :: 0 <= j < k < |acc| ==> acc[j] != acc[k]
    {
      ParseStep(Configs(acc), fs, i);
      match ParseField(fs[i]) {
        case Failure(e) =>
          return [], Some(e);
        case Success(o) =>
          if o.Some? {
            var r := new Retention(o.value);
            assert Configs(acc + [r]) == Configs(acc) + [r.Config()];
            acc := acc + [r];
          }
      }
      i := i + 1;
    }
    assert fs[i..] == [];
    rs, err := acc, None;
  }
}
