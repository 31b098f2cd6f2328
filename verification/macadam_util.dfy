/**
  The decision logic of the addon's N-API helpers: naming value types,
  validating a call's arguments, turning a failed status into a pending
  JavaScript exception, the success short-circuit of promise rejection, and
  the record built to describe one display mode.

  N-API and DeckLink calls are not executed here: their answers are inputs
  (a status, a value type, a support answer, whether a call succeeded).
 */
module MacadamUtil {
  import opened Wrappers
  import opened Com
  import opened Napi

  // ---------------------------------------------------------------------------
  // getNapiTypeName

  /** The name printed for a value type in argument-check messages. */
  function TypeName(t: ValueType): (name: string)
    ensures name == "unknown" <==> t.Unlisted?
  {
    match t
    case Undefined => "undefined"
    case Null => "null"
    case Boolean => "boolean"
    case Number => "number"
    case String => "string"
    case Symbol => "symbol"
    case Object => "object"
    case Function => "function"
    case External => "external"
    case Unlisted(_) => "unknown"
  }

  /** Reads a type name back: the inverse of TypeName on the nine listed types. */
  function TypeOfName(name: string): (t: Option<ValueType>)
    ensures t.Some? ==> !t.value.Unlisted?
  {
    if name == "undefined" then Some(Undefined)
    else if name == "null" then Some(Null)
    else if name == "boolean" then Some(Boolean)
    else if name == "number" then Some(Number)
    else if name == "string" then Some(String)
    else if name == "symbol" then Some(Symbol)
    else if name == "object" then Some(Object)
    else if name == "function" then Some(Function)
    else if name == "external" then Some(External)
    else None
  }

  /**
    Every listed type has its own name, which reads back to it, and every
    name that reads back to a type is that type's name; "unknown" names no type.
   */
  lemma TypeNameRoundTrip(t: ValueType, name: string)
    ensures !t.Unlisted? ==> TypeOfName(TypeName(t)) == Some(t)
    ensures TypeOfName(name) == Some(t) ==> TypeName(t) == name
    ensures TypeOfName("unknown") == None
  {
  }

  /** Two listed types never share a name, so a message names each type unambiguously. */
  lemma TypeNameInjective(s: ValueType, t: ValueType)
    requires !s.Unlisted? && !t.Unlisted?
    ensures TypeName(s) == TypeName(t) ==> s == t
  {
  }

  // ---------------------------------------------------------------------------
  // checkStatus

  /** napi_get_last_error_info's answer. */
  datatype ErrorInfo = ErrorInfo(errorCode: Status, engineErrorCode: int, message: string)

  /** A JavaScript error thrown by napi_throw_error: the last error's code (as text) and message. */
  datatype Thrown = Thrown(code: Status, message: string)

  /** The status checkStatus returns and the error it throws, if any. */
  datatype StatusCheck = StatusCheck(returned: Status, thrown: Option<Thrown>)

  /**
    An ok status passes through. Any other status ends as a pending
    exception: one already pending is returned as it is, anything else is
    first thrown as a JavaScript error built from the last error info.
   */
  function CheckStatus(status: Status, last: ErrorInfo): (r: StatusCheck)
    ensures r.returned == Ok <==> status == Ok
    ensures r.returned != Ok ==> r.returned == PendingException
    ensures r.thrown.Some? <==> status != Ok && status != PendingException
    ensures r.thrown.Some? ==> r.thrown.value == Thrown(last.errorCode, last.message)
  {
    if status == Ok then StatusCheck(status, None)
    else if status == PendingException then StatusCheck(status, None)
    else StatusCheck(PendingException, Some(Thrown(last.errorCode, last.message)))
  }

  /** Checking the status checkStatus returned changes nothing and throws nothing more. */
  lemma CheckStatusIdempotent(status: Status, last: ErrorInfo, later: ErrorInfo)
    ensures var r := CheckStatus(status, last);
            CheckStatus(r.returned, later) == StatusCheck(r.returned, None)
  {
  }

  // ---------------------------------------------------------------------------
  // checkArgs

  /** napi_typeof's status and, when that is ok, the argument's type. */
  datatype TypeofAnswer = TypeofAnswer(status: Status, t: ValueType)

  /** napi_get_cb_info's status and the actual arguments, each as napi_typeof answers for it. */
  datatype CallbackInfo = CallbackInfo(status: Status, args: seq<TypeofAnswer>)

  /** How checkArgs ended. Positions are 1-based, as in the thrown message. */
  datatype ArgsVerdict =
    | ArgsOk
    | InfoFailed(status: Status)
    | CountMismatch(expectedCount: nat, actualCount: nat)
    | TypeofFailed(position: nat, status: Status)
    | TypeMismatch(position: nat, expected: ValueType, got: ValueType)
  {
    /** The napi_status checkArgs returns. */
    function Returned(): Status {
      match this
      case ArgsOk => Ok
      case InfoFailed(s) => s
      case CountMismatch(_, _) => PendingException
      case TypeofFailed(_, s) => s
      case TypeMismatch(_, _, _) => PendingException
    }

    /** Whether checkArgs threw a JavaScript error before returning. */
    predicate Threw() {
      CountMismatch? || TypeMismatch?
    }
  }

  predicate Matches(a: TypeofAnswer, t: ValueType) {
    a.status == Ok && a.t == t
  }

  /** The first n arguments have the expected types. */
  predicate MatchesUpTo(args: seq<TypeofAnswer>, types: seq<ValueType>, n: nat) {
    && n <= |args|
    && n <= |types|
    && forall i :: 0 <= i < n ==> Matches(args[i], types[i])
  }

  /** The call has exactly the expected number of arguments, each of the expected type. */
  predicate AllMatch(args: seq<TypeofAnswer>, types: seq<ValueType>) {
    |args| == |types| && MatchesUpTo(args, types, |types|)
  }

  /**
    checkArgs: the argument count is compared first, before any type is
    inspected; then the arguments are examined in order and the first one
    whose type query fails or whose type differs from the expected one ends
    the check. `types` holds one expected type per expected argument.
   */
  method CheckArgs(info: CallbackInfo, types: seq<ValueType>) returns (v: ArgsVerdict)
    ensures info.status != Ok ==> v == InfoFailed(info.status)
    ensures info.status == Ok && |info.args| != |types| ==> v == CountMismatch(|types|, |info.args|)
    ensures v.ArgsOk? <==> info.status == Ok && AllMatch(info.args, types)
    ensures v.InfoFailed? ==> info.status != Ok
    ensures v.CountMismatch? ==> info.status == Ok && |info.args| != |types|
    ensures info.status == Ok && |info.args| == |types| && !AllMatch(info.args, types) ==>
      v.TypeofFailed? || v.TypeMismatch?
    ensures v.Returned() == Ok <==> v.ArgsOk?
    ensures v.Threw() ==> v.Returned() == PendingException
    ensures v.TypeofFailed? ==>
      && |info.args| == |types|
      && 1 <= v.position <= |types|
      && MatchesUpTo(info.args, types, v.position - 1)
      && v.status == info.args[v.position - 1].status != Ok
    ensures v.TypeMismatch? ==>
      && |info.args| == |types|
      && 1 <= v.position <= |types|
      && MatchesUpTo(info.args, types, v.position - 1)
      && info.args[v.position - 1] == TypeofAnswer(Ok, v.got)
      && v.expected == types[v.position - 1] != v.got
  {
    if info.status != Ok {
      return InfoFailed(info.status);
    }
    if |info.args| != |types| {
      return CountMismatch(|types|, |info.args|);
    }
    var x := 0;
    while x < |types|
      invariant 0 <= x <= |types|
      invariant MatchesUpTo(info.args, types, x)
    {
      var a := info.args[x];
      if a.status != Ok {
        return TypeofFailed(x + 1, a.status);
      }
      if a.t != types[x] {
        return TypeMismatch(x + 1, types[x], a.t);
      }
      x := x + 1;
    }
    return ArgsOk;
  }

  // ---------------------------------------------------------------------------
  // rejectStatus

  /** The fields of a promise carrier that rejectStatus reads. */
  datatype Carrier = Carrier(status: int, errorMsg: string)

  /** Where the rejection's message comes from. */
  datatype MessageSource = LastNapiError | CarrierMessage

  /**
    What rejectStatus did: which message a rejection used (None: no
    rejection), whether the carrier was tidied (deleted), and the value
    returned (None: read from the carrier after it was deleted, so undefined).
   */
  datatype RejectOutcome = RejectOutcome(rejection: Option<MessageSource>, tidied: bool, returned: Option<int>)

  /**
    rejectStatus. `successCode` is MACADAM_SUCCESS and `errorStart` is
    MACADAM_ERROR_START: statuses below it are N-API statuses whose message
    comes from the last error info.
   */
  function RejectStatus(c: Carrier, successCode: int, errorStart: int): (r: RejectOutcome)
    ensures c.status == successCode ==> r == RejectOutcome(None, false, Some(c.status))
    ensures c.status != successCode ==> r.rejection.Some? && r.tidied && r.returned.None?
    ensures r.rejection == Some(LastNapiError) <==> c.status != successCode && c.status < errorStart
  {
    if c.status == successCode then RejectOutcome(None, false, Some(c.status))
    else if c.status < errorStart then RejectOutcome(Some(LastNapiError), true, None)
    else RejectOutcome(Some(CarrierMessage), true, None)
  }

  // ---------------------------------------------------------------------------
  // serializeDisplayMode

  /** What the DeckLink display-mode object answers: name, size, id, flags, field dominance, frame rate. */
  datatype DisplayMode = DisplayMode(
    name: string,
    width: Long,
    height: Long,
    id: Uint32,
    flags: Uint32,
    fieldDominance: Uint32,
    frameDuration: Long,
    timeScale: Long)

  /** BMDDisplayModeSupport. */
  datatype SupportLevel = NotSupported | Supported | SupportedWithConversion

  /** DoesSupportVideoMode's HRESULT and the support level it writes. */
  datatype SupportAnswer = SupportAnswer(hr: HResult, support: SupportLevel)

  /** The DeckLink device interface; only its DoesSupportVideoMode query is used here. */
  datatype DeckLinkIO = DeckLinkIO(doesSupportVideoMode: (Uint32, PixelFormat) -> SupportAnswer)

  /** One row of the known pixel formats table: a format tag and its name (None: a null name). */
  datatype KnownFormat = KnownFormat(format: PixelFormat, name: Option<string>)

  /** A row that ends the table scan: a zero format or a null name. */
  predicate IsSentinel(e: KnownFormat) {
    e.format == 0 || e.name.None?
  }

  /** The number of rows before the first sentinel (the whole table if there is none). */
  function ListedCount(table: seq<KnownFormat>): (n: nat)
    ensures n <= |table|
    ensures forall i :: 0 <= i < n ==> !IsSentinel(table[i])
    ensures n < |table| ==> IsSentinel(table[n])
  {
    if |table| == 0 || IsSentinel(table[0]) then 0
    else 1 + ListedCount(table[1..])
  }

  /** The row's format is reported: it has a name and the device says S_OK with some support. */
  predicate Kept(io: DeckLinkIO, mode: Uint32, e: KnownFormat) {
    && e.name.Some?
    && var a := io.doesSupportVideoMode(mode, e.format);
       a.hr == SOk && a.support != NotSupported
  }

  /** The names of the kept rows, in table order. */
  function SupportedNames(io: DeckLinkIO, mode: Uint32, entries: seq<KnownFormat>): (names: seq<string>)
    ensures |names| <= |entries|
  {
    if |entries| == 0 then []
    else
      var last := entries[|entries| - 1];
      SupportedNames(io, mode, entries[..|entries| - 1])
        + (if Kept(io, mode, last) then [last.name.value] else [])
  }

  /** The "videoModes" list: empty without a device, else the kept rows before the first sentinel. */
  function VideoModes(io: Option<DeckLinkIO>, mode: DisplayMode, table: seq<KnownFormat>): seq<string> {
    if io.None? then [] else SupportedNames(io.value, mode.id, table[..ListedCount(table)])
  }

  /** Filtering a concatenation filters each part: the list keeps table order. */
  lemma {:induction false} SupportedNamesAppend(io: DeckLinkIO, mode: Uint32, a: seq<KnownFormat>, b: seq<KnownFormat>)
    ensures SupportedNames(io, mode, a + b) == SupportedNames(io, mode, a) + SupportedNames(io, mode, b)
    decreases |b|
  {
    if |b| == 0 {
      assert a + b == a;
    } else {
      var b' := b[..|b| - 1];
      assert (a + b)[..|a + b| - 1] == a + b';
      assert (a + b)[|a + b| - 1] == b[|b| - 1];
      SupportedNamesAppend(io, mode, a, b');
    }
  }

  /** A name is listed exactly when some kept row carries it. */
  lemma {:induction false} SupportedNamesMembership(io: DeckLinkIO, mode: Uint32, entries: seq<KnownFormat>, name: string)
    ensures name in SupportedNames(io, mode, entries) <==>
      exists i :: 0 <= i < |entries| && Kept(io, mode, entries[i]) && entries[i].name.value == name
    decreases |entries|
  {
    if |entries| > 0 {
      var init := entries[..|entries| - 1];
      SupportedNamesMembership(io, mode, init, name);
      if exists i :: 0 <= i < |init| && Kept(io, mode, init[i]) && init[i].name.value == name {
        var i :| 0 <= i < |init| && Kept(io, mode, init[i]) && init[i].name.value == name;
        assert entries[i] == init[i];
      }
      if exists i :: 0 <= i < |entries| && Kept(io, mode, entries[i]) && entries[i].name.value == name {
        var i :| 0 <= i < |entries| && Kept(io, mode, entries[i]) && entries[i].name.value == name;
        if i < |init| {
          assert init[i] == entries[i];
        }
      }
    }
  }

  /** Rows after the first sentinel are never looked at. */
  lemma {:induction false} ListedCountIgnoresTail(table: seq<KnownFormat>, i: nat, rest: seq<KnownFormat>)
    requires i < |table| && IsSentinel(table[i])
    ensures ListedCount(table[..i + 1] + rest) == ListedCount(table)
    decreases i
  {
    var t := table[..i + 1] + rest;
    if IsSentinel(table[0]) {
      assert t[0] == table[0];
    } else {
      assert t[0] == table[0];
      assert t[1..] == table[1..][..i] + rest;
      ListedCountIgnoresTail(table[1..], i - 1, rest);
    }
  }

  lemma VideoModesIgnoreTail(io: Option<DeckLinkIO>, mode: DisplayMode, table: seq<KnownFormat>, i: nat, rest: seq<KnownFormat>)
    requires i < |table| && IsSentinel(table[i])
    ensures VideoModes(io, mode, table[..i + 1] + rest) == VideoModes(io, mode, table)
  {
    ListedCountIgnoresTail(table, i, rest);
    var n := ListedCount(table);
    assert (table[..i + 1] + rest)[..n] == table[..n];
  }

  /**
    The scan of the known pixel formats table as the source writes it: walk
    until a zero format or null name, appending the name of each format the
    device supports for this mode; no device, no scan.
   */
  method ScanVideoModes(io: Option<DeckLinkIO>, mode: DisplayMode, table: seq<KnownFormat>) returns (names: seq<string>)
    ensures names == VideoModes(io, mode, table)
  {
    names := [];
    if io.Some? {
      var i := 0;
      while i < |table| && !IsSentinel(table[i])
        invariant 0 <= i <= ListedCount(table)
        invariant names == SupportedNames(io.value, mode.id, table[..i])
      {
        assert table[..i + 1][..i] == table[..i];
        if Kept(io.value, mode.id, table[i]) {
          names := names + [table[i].name.value];
        }
        i := i + 1;
      }
    }
  }

  /** An N-API call whose status serializeDisplayMode checks, bailing out on failure. */
  datatype NapiStep =
    | CreateObject
    | CreateValue(property: string)
    | SetProperty(property: string)
    | CreateArray(property: string)
    | CreateElement(property: string, index: nat)
    | SetElement(property: string, index: nat)

  /** Creating and storing the first n elements of an array property. */
  function ElementSteps(property: string, n: nat): (steps: seq<NapiStep>)
    ensures |steps| == 2 * n
  {
    if n == 0 then []
    else ElementSteps(property, n - 1) + [CreateElement(property, n - 1), SetElement(property, n - 1)]
  }

  /** The checked calls in the order they run, for a mode whose videoModes list has modeCount names. */
  function CheckedSteps(modeCount: nat): seq<NapiStep> {
    [ CreateObject,
      CreateValue("name"), SetProperty("name"),
      CreateValue("width"), SetProperty("width"),
      CreateValue("height"), SetProperty("height"),
      CreateValue("fieldDominance"), SetProperty("fieldDominance"),
      CreateArray("frameRate"),
      CreateElement("frameRate", 0), SetElement("frameRate", 0),
      CreateElement("frameRate", 1), SetElement("frameRate", 1),
      SetProperty("frameRate"),
      CreateArray("videoModes") ]
    + ElementSteps("videoModes", modeCount)
    + [SetProperty("videoModes")]
  }

  predicate AllSucceed(napiOk: NapiStep -> bool, steps: seq<NapiStep>) {
    forall i :: 0 <= i < |steps| ==> napiOk(steps[i])
  }

  /** The JavaScript object serializeDisplayMode builds. */
  datatype DisplayModeRecord = DisplayModeRecord(
    name: string,
    width: Long,
    height: Long,
    displayMode: Uint32,
    displayModeFlags: Uint32,
    fieldDominance: int,
    frameRate: seq<Long>,
    videoModes: seq<string>)

  /** The record reports the mode's own answers (every field but fieldDominance and videoModes). */
  predicate Describes(rec: DisplayModeRecord, mode: DisplayMode) {
    && rec.name == mode.name
    && rec.width == mode.width
    && rec.height == mode.height
    && rec.displayMode == mode.id
    && rec.displayModeFlags == mode.flags
    && |rec.frameRate| == 2
    && rec.frameRate[0] == mode.frameDuration
    && rec.frameRate[1] == mode.timeScale
  }

  function BuildRecord(mode: DisplayMode, fieldDominance: int, videoModes: seq<string>): (rec: DisplayModeRecord)
    ensures Describes(rec, mode)
    ensures rec.fieldDominance == fieldDominance && rec.videoModes == videoModes
  {
    DisplayModeRecord(mode.name, mode.width, mode.height, mode.id, mode.flags,
                      fieldDominance, [mode.frameDuration, mode.timeScale], videoModes)
  }

  /**
    serializeDisplayMode as written: the "fieldDominance" property is given
    the mode's height. Any failed checked N-API call yields napi_generic_failure.
   */
  function SerializeDisplayMode(io: Option<DeckLinkIO>, mode: DisplayMode, table: seq<KnownFormat>, napiOk: NapiStep -> bool)
    : (r: Result<DisplayModeRecord, Status>)
    ensures r.Success? <==> AllSucceed(napiOk, CheckedSteps(|VideoModes(io, mode, table)|))
    ensures r.Failure? ==> r.error == GenericFailure
    ensures r.Success? ==> Describes(r.value, mode)
    ensures r.Success? ==> r.value.videoModes == VideoModes(io, mode, table)
    ensures r.Success? ==> r.value.fieldDominance == mode.height
  {
    var modes := VideoModes(io, mode, table);
    if AllSucceed(napiOk, CheckedSteps(|modes|)) then Success(BuildRecord(mode, mode.height, modes))
    else Failure(GenericFailure)
  }

  /** serializeDisplayMode with the field dominance the mode reports in "fieldDominance". */
  function SerializeDisplayModeCorrected(io: Option<DeckLinkIO>, mode: DisplayMode, table: seq<KnownFormat>, napiOk: NapiStep -> bool)
    : (r: Result<DisplayModeRecord, Status>)
    ensures r.Success? <==> AllSucceed(napiOk, CheckedSteps(|VideoModes(io, mode, table)|))
    ensures r.Failure? ==> r.error == GenericFailure
    ensures r.Success? ==> Describes(r.value, mode)
    ensures r.Success? ==> r.value.videoModes == VideoModes(io, mode, table)
    ensures r.Success? ==> r.value.fieldDominance == mode.fieldDominance
  {
    var modes := VideoModes(io, mode, table);
    if AllSucceed(napiOk, CheckedSteps(|modes|)) then Success(BuildRecord(mode, mode.fieldDominance, modes))
    else Failure(GenericFailure)
  }

  /**
    The as-written record misreports field dominance for any mode whose
    dominance code differs from its height, e.g. a 1080-line interlaced mode
    with upper field first ('uppr', 0x75707072). The corrected record differs
    from it in that one field only.
   */
  lemma FieldDominanceReportsHeight(io: Option<DeckLinkIO>, mode: DisplayMode, table: seq<KnownFormat>, napiOk: NapiStep -> bool)
    ensures var asWritten := SerializeDisplayMode(io, mode, table, napiOk);
            var corrected := SerializeDisplayModeCorrected(io, mode, table, napiOk);
            && (asWritten.Success? <==> corrected.Success?)
            && (asWritten.Success? ==> asWritten.value.(fieldDominance := mode.fieldDominance) == corrected.value)
            && (asWritten.Success? && mode.fieldDominance != mode.height ==>
                  asWritten.value.fieldDominance != mode.fieldDominance)
    ensures var m := DisplayMode("1080i50", 1920, 1080, 0x48693530, 0, 0x75707072, 1000, 25000);
            var r := SerializeDisplayMode(None, m, [], _ => true);
            r.Success? && r.value.fieldDominance == 1080 != m.fieldDominance
  {
  }
}
