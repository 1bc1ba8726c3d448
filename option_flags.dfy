/** Doctest option flags. doctest's `register_optionflag` gives every name
    its own bit, so a flag word is exactly the set of flags whose bits are
    on: `flags & F` is `F in flags` and `a | b` is `a + b`. The set holds
    the standard doctest flags and the ones this plugin registers. */
module OptionFlags {
  import opened Base

  datatype OptionFlag =
    // registered by doctest itself
    | DontAcceptTrueFor1 | DontAcceptBlankline | NormalizeWhitespace | Ellipsis | Skip
    | IgnoreExceptionDetail | ReportUdiff | ReportCdiff | ReportNdiff
    | ReportOnlyFirstFailure | FailFast
    // registered by the plugin
    | Fix | FloatCmp | RemoteData | IgnoreOutput | IgnoreOutput2 | IgnoreOutput3
    | AllowBytes | AllowUnicode | IgnoreWarnings

  type Flags = set<OptionFlag>

  /** The name a flag is registered under. */
  function FlagName(f: OptionFlag): string {
    match f
    case DontAcceptTrueFor1 => "DONT_ACCEPT_TRUE_FOR_1"
    case DontAcceptBlankline => "DONT_ACCEPT_BLANKLINE"
    case NormalizeWhitespace => "NORMALIZE_WHITESPACE"
    case Ellipsis => "ELLIPSIS"
    case Skip => "SKIP"
    case IgnoreExceptionDetail => "IGNORE_EXCEPTION_DETAIL"
    case ReportUdiff => "REPORT_UDIFF"
    case ReportCdiff => "REPORT_CDIFF"
    case ReportNdiff => "REPORT_NDIFF"
    case ReportOnlyFirstFailure => "REPORT_ONLY_FIRST_FAILURE"
    case FailFast => "FAIL_FAST"
    case Fix => "FIX"
    case FloatCmp => "FLOAT_CMP"
    case RemoteData => "REMOTE_DATA"
    case IgnoreOutput => "IGNORE_OUTPUT"
    case IgnoreOutput2 => "IGNORE_OUTPUT_2"
    case IgnoreOutput3 => "IGNORE_OUTPUT_3"
    case AllowBytes => "ALLOW_BYTES"
    case AllowUnicode => "ALLOW_UNICODE"
    case IgnoreWarnings => "IGNORE_WARNINGS"
  }

  /** `doctest.OPTIONFLAGS_BY_NAME.get(name)`. */
  function FlagByName(name: string): (r: Option<OptionFlag>)
    ensures r.Some? ==> FlagName(r.value) == name
  {
    match name
    case "DONT_ACCEPT_TRUE_FOR_1" => Some(DontAcceptTrueFor1)
    case "DONT_ACCEPT_BLANKLINE" => Some(DontAcceptBlankline)
    case "NORMALIZE_WHITESPACE" => Some(NormalizeWhitespace)
    case "ELLIPSIS" => Some(Ellipsis)
    case "SKIP" => Some(Skip)
    case "IGNORE_EXCEPTION_DETAIL" => Some(IgnoreExceptionDetail)
    case "REPORT_UDIFF" => Some(ReportUdiff)
    case "REPORT_CDIFF" => Some(ReportCdiff)
    case "REPORT_NDIFF" => Some(ReportNdiff)
    case "REPORT_ONLY_FIRST_FAILURE" => Some(ReportOnlyFirstFailure)
    case "FAIL_FAST" => Some(FailFast)
    case "FIX" => Some(Fix)
    case "FLOAT_CMP" => Some(FloatCmp)
    case "REMOTE_DATA" => Some(RemoteData)
    case "IGNORE_OUTPUT" => Some(IgnoreOutput)
    case "IGNORE_OUTPUT_2" => Some(IgnoreOutput2)
    case "IGNORE_OUTPUT_3" => Some(IgnoreOutput3)
    case "ALLOW_BYTES" => Some(AllowBytes)
    case "ALLOW_UNICODE" => Some(AllowUnicode)
    case "IGNORE_WARNINGS" => Some(IgnoreWarnings)
    case _ => None
  }

  /** Every flag can be looked up under its own name. */
  lemma FlagNameRoundTrip(f: OptionFlag)
    ensures FlagByName(FlagName(f)) == Some(f)
  {
    match f
    case DontAcceptTrueFor1 | DontAcceptBlankline | NormalizeWhitespace | Ellipsis | Skip => NamesFound1(f);
    case IgnoreExceptionDetail | ReportUdiff | ReportCdiff | ReportNdiff | ReportOnlyFirstFailure | FailFast => NamesFound2(f);
    case Fix | FloatCmp | RemoteData | IgnoreOutput | IgnoreOutput2 => NamesFound3(f);
    case IgnoreOutput3 | AllowBytes | AllowUnicode | IgnoreWarnings => NamesFound4(f);
  }

  lemma NamesFound1(f: OptionFlag)
    requires f.DontAcceptTrueFor1? || f.DontAcceptBlankline? || f.NormalizeWhitespace? || f.Ellipsis? || f.Skip?
    ensures FlagByName(FlagName(f)) == Some(f)
  {
  }

  lemma NamesFound2(f: OptionFlag)
    requires f.IgnoreExceptionDetail? || f.ReportUdiff? || f.ReportCdiff? || f.ReportNdiff? || f.ReportOnlyFirstFailure? || f.FailFast?
    ensures FlagByName(FlagName(f)) == Some(f)
  {
  }

  lemma NamesFound3(f: OptionFlag)
    requires f.Fix? || f.FloatCmp? || f.RemoteData? || f.IgnoreOutput? || f.IgnoreOutput2?
    ensures FlagByName(FlagName(f)) == Some(f)
  {
  }

  lemma NamesFound4(f: OptionFlag)
    requires f.IgnoreOutput3? || f.AllowBytes? || f.AllowUnicode? || f.IgnoreWarnings?
    ensures FlagByName(FlagName(f)) == Some(f)
  {
  }

  predicate Known(name: string) {
    FlagByName(name).Some?
  }

  /** `get_optionflags`: the OR of the flags named in the
      `doctest_optionflags` ini list; an unregistered name raises KeyError
      (the first one met, as the loop meets it). */
  method GetOptionflags(names: seq<string>) returns (r: Result<Flags>)
    ensures r.Ok? <==> forall i :: 0 <= i < |names| ==> Known(names[i])
    ensures r.Ok? ==> forall f :: f in r.value <==> exists i :: 0 <= i < |names| && FlagByName(names[i]) == Some(f)
    ensures r.Err? ==> exists i ::
      && 0 <= i < |names| && !Known(names[i]) && r.error == KeyError(names[i])
      && forall j :: 0 <= j < i ==> Known(names[j])
    ensures names == [] ==> r == Ok({})
  {
    var flagInt: Flags := {};
    for i := 0 to |names|
      invariant forall j :: 0 <= j < i ==> Known(names[j])
      invariant i == 0 ==> flagInt == {}
      invariant forall f :: f in flagInt <==> exists j :: 0 <= j < i && FlagByName(names[j]) == Some(f)
    {
      match FlagByName(names[i])
      case None =>
        return Err(KeyError(names[i]));
      case Some(f) =>
        flagInt := flagInt + {f};
    }
    return Ok(flagInt);
  }
}
