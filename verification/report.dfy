/** The field derivation of `insertReportIntoDatabase`
    (socorro/processor/processor.py lines 536-583): from the decoded JSON metadata of a
    crash to the tuple that becomes one row of the `reports` table, together with the
    messages appended to the job's error list on the way. The insert itself and the
    duplicate handling after it are not part of this model. */
module Report {

  import opened Wrappers
  import opened Text
  import opened Patterns

  /** A value of the decoded JSON metadata. Arrays and objects are kept without their
      contents, which the derivation never reads; numbers with a fraction are not
      modelled. */
  datatype JsonValue = JNull | JBool(b: bool) | JInt(i: int) | JString(s: string) | JArray | JObject

  type JsonDocument = map<string, JsonValue>

  /** What `int(doc[key])` does: give a number, raise an exception the time block
      catches (`KeyError` for a missing key, `ValueError` for text that is not a
      number), or raise a `TypeError`, which that block does not catch. */
  datatype IntRead = IntOk(value: int) | KeyOrValueError | TypeErrorRaised

  function ToInt(v: JsonValue): (r: IntRead)
    ensures r == KeyOrValueError <==> v.JString? && ParseInt(v.s).None?
    ensures r == TypeErrorRaised <==> v.JNull? || v.JArray? || v.JObject?
    ensures v.JInt? ==> r == IntOk(v.i)
    ensures v.JBool? ==> r == IntOk(if v.b then 1 else 0)
    ensures v.JString? && ParseInt(v.s).Some? ==> r == IntOk(ParseInt(v.s).value)
  {
    match v
    case JInt(i) => IntOk(i)
    case JBool(b) => IntOk(if b then 1 else 0)
    case JString(s) =>
      (match ParseInt(s)
       case Some(i) => IntOk(i)
       case None => KeyOrValueError)
    case JNull => TypeErrorRaised
    case JArray => TypeErrorRaised
    case JObject => TypeErrorRaised
  }

  function ReadInt(doc: JsonDocument, key: string): IntRead {
    if key in doc then ToInt(doc[key]) else KeyOrValueError
  }

  /** The exception that escapes the derivation. */
  datatype RaisedError =
    | TypeErrorAt(key: string)        // int() or fromtimestamp() of a value of the wrong type
    | UnboundLocal(name: string)      // a required field was missing, so its local is unbound

  // ---------------------------------------------------------------------------
  // Calls into helpers that are not part of this model, kept as the call they are

  /** `limitStringOrNone(value, limit)`. */
  datatype Limited = LimitStringOrNone(value: JsonValue, limit: nat)

  /** `lookupLimitedStringOrNone(jsonDocument, key, limit)`. */
  datatype LookupLimited = LookupLimitedStringOrNone(key: string, limit: nat)

  // ---------------------------------------------------------------------------
  // The row

  /** Where the report date comes from; `fromtimestamp` itself is not modelled. */
  datatype ReportDate = DateProcessed | FromCrashTime(seconds: int) | FromClientTimestamp(seconds: int)

  datatype BuildDate = BuildDate(year: nat, month: nat, day: nat, hour: nat)

  datatype ReportRow = ReportRow(
    uuid: string,
    reportDate: ReportDate,
    product: Limited,
    version: Limited,
    build: Limited,
    url: LookupLimited,
    installAge: Option<int>,
    lastCrash: Option<int>,
    uptime: int,
    email: Option<string>,
    buildDate: Option<BuildDate>,
    userId: LookupLimited,
    userComments: LookupLimited,
    appNotes: LookupLimited,
    distributor: LookupLimited,
    distributorVersion: LookupLimited)

  /** The messages appended to the job's list, and the row or the exception raised. */
  datatype Derivation = Derivation(messages: seq<string>, outcome: Result<ReportRow, RaisedError>)

  // ---------------------------------------------------------------------------
  // Required fields

  /** The error recorded for a missing required key (lines 539, 543 and 547). */
  function MissingMessage(key: string): string {
    MissingPrefix + key + "'"
  }

  const MissingPrefix: string := "ERROR: Json file missing '"

  /** The warning recorded when `what` could not be derived (lines 570 and 577). */
  function Undetermined(what: string): string {
    WarningPrefix + what + "' could be determined from the Json file"
  }

  const WarningPrefix: string := "WARNING: No '"

  const NoReportDateWarning: string := Undetermined("client_report_date")
  const NoBuildDateWarning: string := Undetermined("build_date")

  predicate HasRequired(doc: JsonDocument) {
    "ProductName" in doc && "Version" in doc && "BuildID" in doc
  }

  /** The messages differ in their first character by kind, and the error messages
      differ in the character where the key begins. */
  lemma MessageHeads(key: string)
    requires key != []
    ensures MissingMessage(key)[0] == 'E' && MissingMessage(key)[|MissingPrefix|] == key[0]
    ensures NoReportDateWarning[0] == 'W' && NoBuildDateWarning[0] == 'W'
    ensures NoReportDateWarning != NoBuildDateWarning
  {
    assert MissingPrefix[0] == 'E' && WarningPrefix[0] == 'W';
    assert NoReportDateWarning[|WarningPrefix|] != NoBuildDateWarning[|WarningPrefix|];
  }

  /** One message per missing required key, in the order the keys are tried. */
  function MissingMessages(doc: JsonDocument): seq<string> {
    (if "ProductName" in doc then [] else [MissingMessage("ProductName")])
    + (if "Version" in doc then [] else [MissingMessage("Version")])
    + (if "BuildID" in doc then [] else [MissingMessage("BuildID")])
  }

  /** Every message is one of the two warnings. */
  predicate AllWarnings(messages: seq<string>) {
    forall i :: 0 <= i < |messages| ==> messages[i] == NoReportDateWarning || messages[i] == NoBuildDateWarning
  }

  /** The local that the row tuple reads first and finds unbound. */
  function FirstUnbound(doc: JsonDocument): string
    requires !HasRequired(doc)
  {
    if "ProductName" !in doc then "product"
    else if "Version" !in doc then "version"
    else "build"
  }

  // ---------------------------------------------------------------------------
  // The time block (lines 556-571)

  datatype TimeFields = TimeFields(reportDate: ReportDate, installAge: Option<int>, uptime: int, noReportDate: bool)

  /** The `except` branch: fall back on the client's `timestamp`, keeping whatever the
      `try` branch had already assigned. */
  function ClientTimestampFallback(doc: JsonDocument, date: ReportDate, installAge: Option<int>, uptime: int)
    : Result<TimeFields, RaisedError>
  {
    if "timestamp" !in doc then Success(TimeFields(date, installAge, uptime, true))
    else match doc["timestamp"]
      case JInt(t) => Success(TimeFields(FromClientTimestamp(t), installAge, uptime, false))
      case JBool(b) => Success(TimeFields(FromClientTimestamp(if b then 1 else 0), installAge, uptime, false))
      case _ => Failure(TypeErrorAt("timestamp"))
  }

  /** The statements of the `try` run in order, so a failure part-way leaves the earlier
      assignments in place. */
  function DeriveTimes(doc: JsonDocument): (r: Result<TimeFields, RaisedError>)
    ensures r.Success? ==> r.value.uptime >= 0
    ensures r.Success? && r.value.uptime > 0 ==>
      ReadInt(doc, "CrashTime").IntOk? && ReadInt(doc, "InstallTime").IntOk?
      && ReadInt(doc, "StartupTime").IntOk?
      && r.value.uptime == ReadInt(doc, "CrashTime").value - ReadInt(doc, "StartupTime").value
  {
    match ReadInt(doc, "CrashTime")
    case TypeErrorRaised => Failure(TypeErrorAt("CrashTime"))
    case KeyOrValueError => ClientTimestampFallback(doc, DateProcessed, None, 0)
    case IntOk(crash) =>
      match ReadInt(doc, "InstallTime")
      case TypeErrorRaised => Failure(TypeErrorAt("InstallTime"))
      case KeyOrValueError => ClientTimestampFallback(doc, FromCrashTime(crash), None, 0)
      case IntOk(install) =>
        match ReadInt(doc, "StartupTime")
        case TypeErrorRaised => Failure(TypeErrorAt("StartupTime"))
        case KeyOrValueError => ClientTimestampFallback(doc, FromCrashTime(crash), Some(crash - install), 0)
        case IntOk(startup) =>
          var up := crash - startup;
          Success(TimeFields(FromCrashTime(crash), Some(crash - install), if up > 0 then up else 0, false))
  }

  // ---------------------------------------------------------------------------
  // The build date (lines 572-578)

  function DaysInMonth(year: nat, month: nat): nat
    requires 1 <= month <= 12
  {
    if month == 2 then
      (if year % 4 == 0 && (year % 100 != 0 || year % 400 == 0) then 29 else 28)
    else if month == 4 || month == 6 || month == 9 || month == 11 then 30
    else 31
  }

  /** What `datetime.datetime(year, month, day, hour)` accepts. */
  predicate IsValidDateHour(g: DigitGroups) {
    1 <= g.year <= 9999 && 1 <= g.month <= 12 && 1 <= g.day <= DaysInMonth(g.year, g.month)
    && g.hour <= 23
  }

  /** `str(v)` where the build-date pattern can use it. A list or dict renders as text
      opening with a bracket, which the pattern never matches; it is `None` here. */
  function TextForPattern(v: JsonValue): Option<string> {
    match v
    case JString(s) => Some(s)
    case JInt(i) => Some(IntToString(i))
    case JBool(b) => Some(if b then "True" else "False")
    case JNull => Some("None")
    case JArray => None
    case JObject => None
  }

  /** The build date: the four digit groups at the start of `str(BuildID)`, when they
      form a valid date and hour. */
  function DeriveBuildDate(doc: JsonDocument): (r: Option<BuildDate>)
    ensures r.Some? ==> "BuildID" in doc && TextForPattern(doc["BuildID"]).Some?
    ensures r.Some? ==>
      var text := TextForPattern(doc["BuildID"]).value;
      |text| >= 10 && AllDigits(text[..10])
      && PadDigits(r.value.year, 4) + PadDigits(r.value.month, 2)
         + PadDigits(r.value.day, 2) + PadDigits(r.value.hour, 2) == text[..10]
    ensures r.Some? ==>
      1 <= r.value.year <= 9999 && 1 <= r.value.month <= 12
      && 1 <= r.value.day <= DaysInMonth(r.value.year, r.value.month) && r.value.hour <= 23
    ensures r.Some? <==>
      && "BuildID" in doc && TextForPattern(doc["BuildID"]).Some?
      && var text := TextForPattern(doc["BuildID"]).value;
         |text| >= 10 && AllDigits(text[..10]) && IsValidDateHour(Groups(text[..10]))
  {
    if "BuildID" !in doc || TextForPattern(doc["BuildID"]).None? then None
    else
      var groups := MatchBuildDate(TextForPattern(doc["BuildID"]).value);
      if groups.Some? && IsValidDateHour(groups.value) then
        Some(BuildDate(groups.value.year, groups.value.month, groups.value.day, groups.value.hour))
      else None
  }

  // ---------------------------------------------------------------------------
  // The whole derivation

  /** `int(doc['SecondsSinceLastCrash'])`, with every exception turned into `None`. */
  function DeriveLastCrash(doc: JsonDocument): (r: Option<int>)
    ensures r.None? <==> "SecondsSinceLastCrash" !in doc || !ToInt(doc["SecondsSinceLastCrash"]).IntOk?
    ensures r.Some? ==> ToInt(doc["SecondsSinceLastCrash"]) == IntOk(r.value)
  {
    match ReadInt(doc, "SecondsSinceLastCrash")
    case IntOk(n) => Some(n)
    case _ => None
  }

  /** The warnings recorded after the time block and the build-date attempt. */
  function Warnings(times: TimeFields, buildDate: Option<BuildDate>): (w: seq<string>)
    ensures AllWarnings(w)
  {
    (if times.noReportDate then [NoReportDateWarning] else [])
    + (if buildDate.None? then [NoBuildDateWarning] else [])
  }

  /** The row tuple of line 583. */
  function MakeRow(uuid: string, doc: JsonDocument, times: TimeFields, buildDate: Option<BuildDate>): ReportRow
    requires HasRequired(doc)
  {
    ReportRow(
      uuid,
      times.reportDate,
      LimitStringOrNone(doc["ProductName"], 30),
      LimitStringOrNone(doc["Version"], 16),
      LimitStringOrNone(doc["BuildID"], 30),
      LookupLimitedStringOrNone("URL", 255),
      times.installAge,
      DeriveLastCrash(doc),
      times.uptime,
      None,  // email addresses are no longer collected
      buildDate,
      LookupLimitedStringOrNone("UserID", 50),
      LookupLimitedStringOrNone("Comments", 500),
      LookupLimitedStringOrNone("Notes", 1000),
      LookupLimitedStringOrNone("Distributor", 20),
      LookupLimitedStringOrNone("Distributor_version", 20))
  }

  /** Everything `insertReportIntoDatabase` works out before it inserts the row. */
  function DeriveReport(uuid: string, doc: JsonDocument): (r: Derivation)
    ensures r.outcome.Success? <==> HasRequired(doc) && DeriveTimes(doc).Success?
    ensures r.outcome.Success? ==> r.outcome.value.email == None
    ensures r.outcome.Success? ==> r.outcome.value.uptime >= 0 && r.outcome.value.uuid == uuid
    ensures |MissingMessages(doc)| <= |r.messages|
            && r.messages[..|MissingMessages(doc)|] == MissingMessages(doc)
            && AllWarnings(r.messages[|MissingMessages(doc)|..])
  {
    var errors := MissingMessages(doc);
    match DeriveTimes(doc)
    case Failure(e) => Derivation(errors, Failure(e))
    case Success(times) =>
      var buildDate := DeriveBuildDate(doc);
      var warnings := Warnings(times, buildDate);
      assert (errors + warnings)[..|errors|] == errors && (errors + warnings)[|errors|..] == warnings;
      if !HasRequired(doc) then
        Derivation(errors + warnings, Failure(UnboundLocal(FirstUnbound(doc))))
      else
        Derivation(errors + warnings, Success(MakeRow(uuid, doc, times, buildDate)))
  }

  // ---------------------------------------------------------------------------
  // Properties of the derivation

  /** Each missing required key adds exactly its own error message, and a present one
      adds none. */
  lemma MissingKeyMessageCount(uuid: string, doc: JsonDocument, key: string)
    requires key == "ProductName" || key == "Version" || key == "BuildID"
    ensures multiset(DeriveReport(uuid, doc).messages)[MissingMessage(key)]
            == if key in doc then 0 else 1
  {
    var messages := DeriveReport(uuid, doc).messages;
    var errors := MissingMessages(doc);
    var warnings := if DeriveTimes(doc).Success?
      then Warnings(DeriveTimes(doc).value, DeriveBuildDate(doc)) else [];
    assert messages == errors + warnings;
    MissingMessagesCount(doc, key);
    WarningsCount(warnings, key);
    assert multiset(messages) == multiset(errors) + multiset(warnings);
  }

  lemma MissingMessagesCount(doc: JsonDocument, key: string)
    requires key == "ProductName" || key == "Version" || key == "BuildID"
    ensures multiset(MissingMessages(doc))[MissingMessage(key)] == if key in doc then 0 else 1
  {
    MessageHeads(key);
    MessageHeads("ProductName");
    MessageHeads("Version");
    MessageHeads("BuildID");
  }

  lemma WarningsCount(warnings: seq<string>, key: string)
    requires AllWarnings(warnings) && key != []
    ensures multiset(warnings)[MissingMessage(key)] == 0
  {
    MessageHeads(key);
    if warnings != [] {
      assert warnings == [warnings[0]] + warnings[1..];
      WarningsCount(warnings[1..], key);
    }
  }

  /** A missing required key does not stop the derivation at once: its message is
      recorded, and the row tuple then fails on the unbound local. */
  lemma MissingKeyFails(uuid: string, doc: JsonDocument)
    requires !HasRequired(doc) && DeriveTimes(doc).Success?
    ensures DeriveReport(uuid, doc).outcome == Failure(UnboundLocal(FirstUnbound(doc)))
    ensures |DeriveReport(uuid, doc).messages| > 0
  {
  }

  /** A `null` crash time is not a `ValueError` or `KeyError`: the `TypeError` escapes the
      time block, whatever else the document holds. */
  lemma NullCrashTimeRaises(uuid: string, doc: JsonDocument)
    requires "CrashTime" in doc && doc["CrashTime"] == JNull
    ensures DeriveReport(uuid, doc).outcome == Failure(TypeErrorAt("CrashTime"))
    ensures DeriveReport(uuid, doc).messages == MissingMessages(doc)
  {
  }

  /** The uptime is the crash time minus the startup time, floored at zero, when the
      crash, install and startup times all read as numbers; otherwise it stays 0. */
  lemma UptimeRule(uuid: string, doc: JsonDocument)
    requires DeriveReport(uuid, doc).outcome.Success?
    ensures var up := DeriveReport(uuid, doc).outcome.value.uptime;
      if ReadInt(doc, "CrashTime").IntOk? && ReadInt(doc, "InstallTime").IntOk?
         && ReadInt(doc, "StartupTime").IntOk?
      then up == Max0(ReadInt(doc, "CrashTime").value - ReadInt(doc, "StartupTime").value)
      else up == 0
  {
  }

  /** The install age is the crash time minus the install time once both read as
      numbers, even when the startup time then fails; otherwise it stays `None`. */
  lemma InstallAgeRule(uuid: string, doc: JsonDocument)
    requires DeriveReport(uuid, doc).outcome.Success?
    ensures var age := DeriveReport(uuid, doc).outcome.value.installAge;
      if ReadInt(doc, "CrashTime").IntOk? && ReadInt(doc, "InstallTime").IntOk?
      then age == Some(ReadInt(doc, "CrashTime").value - ReadInt(doc, "InstallTime").value)
      else age == None
  {
    assert DeriveReport(uuid, doc).outcome.value.installAge == DeriveTimes(doc).value.installAge;
  }

  /** The first of the three reads that does not give a number raises the uncaught
      `TypeError` (`null`, an array or an object). */
  predicate TimeReadRaises(doc: JsonDocument) {
    var crash := ReadInt(doc, "CrashTime");
    var install := ReadInt(doc, "InstallTime");
    || crash.TypeErrorRaised?
    || (crash.IntOk? && install.TypeErrorRaised?)
    || (crash.IntOk? && install.IntOk? && ReadInt(doc, "StartupTime").TypeErrorRaised?)
  }

  /** The client timestamp is present but `fromtimestamp` cannot take it. */
  predicate TimestampRaises(doc: JsonDocument) {
    "timestamp" in doc && !doc["timestamp"].JInt? && !doc["timestamp"].JBool?
  }

  /** The time block raises exactly when a read raises `TypeError` before any read
      fails with a caught exception, or when the fallback meets a timestamp of the
      wrong type; the exception names the key it came from. */
  lemma TimeBlockRaisesRule(doc: JsonDocument)
    ensures DeriveTimes(doc).Failure? <==>
      TimeReadRaises(doc) || (!AllTimesRead(doc) && TimestampRaises(doc))
    ensures DeriveTimes(doc).Failure? ==> DeriveTimes(doc).error.TypeErrorAt?
    ensures DeriveTimes(doc).Failure? && DeriveTimes(doc).error.key == "timestamp" ==>
      !TimeReadRaises(doc) && TimestampRaises(doc)
    ensures DeriveTimes(doc).Failure? && DeriveTimes(doc).error.key != "timestamp" ==>
      ReadInt(doc, DeriveTimes(doc).error.key).TypeErrorRaised?
  {
  }

  function Max0(x: int): (r: int)
    ensures r >= 0 && r >= x && (r == 0 || r == x)
  {
    if x > 0 then x else 0
  }

  /** The report date comes from the crash time when that reads as a number, unless a
      later time field sends the block to its fallback and a client timestamp is
      present; then it comes from the client timestamp (a number or a boolean); with
      neither it stays the processing date. */
  lemma ReportDateRule(uuid: string, doc: JsonDocument)
    requires DeriveReport(uuid, doc).outcome.Success?
    ensures var row := DeriveReport(uuid, doc).outcome.value;
      && (row.reportDate.FromCrashTime? ==> ReadInt(doc, "CrashTime") == IntOk(row.reportDate.seconds))
      && (row.reportDate.FromCrashTime? <==>
            ReadInt(doc, "CrashTime").IntOk? && (AllTimesRead(doc) || "timestamp" !in doc))
      && (row.reportDate.FromClientTimestamp? ==>
            && !AllTimesRead(doc) && "timestamp" in doc
            && (|| doc["timestamp"] == JInt(row.reportDate.seconds)
                || (doc["timestamp"].JBool?
                    && row.reportDate.seconds == if doc["timestamp"].b then 1 else 0)))
      && (row.reportDate.DateProcessed? <==> !ReadInt(doc, "CrashTime").IntOk? && "timestamp" !in doc)
  {
    assert DeriveReport(uuid, doc).outcome.value.reportDate == DeriveTimes(doc).value.reportDate;
    TimesDateRule(doc);
  }

  /** The report-date part of the time block alone. */
  lemma TimesDateRule(doc: JsonDocument)
    requires DeriveTimes(doc).Success?
    ensures var t := DeriveTimes(doc).value;
      && (t.reportDate.FromCrashTime? ==> ReadInt(doc, "CrashTime") == IntOk(t.reportDate.seconds))
      && (t.reportDate.FromCrashTime? <==>
            ReadInt(doc, "CrashTime").IntOk? && (AllTimesRead(doc) || "timestamp" !in doc))
      && (t.reportDate.FromClientTimestamp? ==>
            && !AllTimesRead(doc) && "timestamp" in doc
            && (|| doc["timestamp"] == JInt(t.reportDate.seconds)
                || (doc["timestamp"].JBool?
                    && t.reportDate.seconds == if doc["timestamp"].b then 1 else 0)))
      && (t.reportDate.DateProcessed? <==> !ReadInt(doc, "CrashTime").IntOk? && "timestamp" !in doc)
      && t.noReportDate == ("timestamp" !in doc && !AllTimesRead(doc))
  {
  }

  /** The missing-date warning is recorded exactly when the time block fell back and
      found no client timestamp either. */
  lemma ReportDateWarningRule(uuid: string, doc: JsonDocument)
    requires DeriveReport(uuid, doc).outcome.Success?
    ensures (NoReportDateWarning in DeriveReport(uuid, doc).messages)
            == ("timestamp" !in doc && !AllTimesRead(doc))
  {
    var times := DeriveTimes(doc).value;
    var buildDate := DeriveBuildDate(doc);
    assert MissingMessages(doc) == [];
    assert DeriveReport(uuid, doc).messages == [] + Warnings(times, buildDate);
    WarningsReportDate(times, buildDate);
    TimesDateRule(doc);
  }

  /** The messages in the order the derivation records them: the missing-key errors,
      then the report-date warning if the fallback found no timestamp, then the
      build-date warning if no build date was found, each at most once. When the time
      block raises, only the errors have been recorded. */
  lemma MessagesInOrder(uuid: string, doc: JsonDocument)
    ensures DeriveTimes(doc).Failure? ==> DeriveReport(uuid, doc).messages == MissingMessages(doc)
    ensures DeriveTimes(doc).Success? ==>
      DeriveReport(uuid, doc).messages
      == MissingMessages(doc)
         + (if "timestamp" !in doc && !AllTimesRead(doc) then [NoReportDateWarning] else [])
         + (if DeriveBuildDate(doc).None? then [NoBuildDateWarning] else [])
  {
    if DeriveTimes(doc).Success? {
      var times := DeriveTimes(doc).value;
      assert DeriveReport(uuid, doc).messages
             == MissingMessages(doc) + Warnings(times, DeriveBuildDate(doc));
      TimesDateRule(doc);
    }
  }

  /** The report-date warning is among the warnings exactly when the time block found no
      date. */
  lemma WarningsReportDate(times: TimeFields, buildDate: Option<BuildDate>)
    ensures (NoReportDateWarning in Warnings(times, buildDate)) == times.noReportDate
  {
    MessageHeads("BuildID");
  }

  /** Once the time block has completed, the build-date warning is recorded exactly when
      no build date was found, whether or not the row is then built; a built row holds
      the derived build date and last-crash interval. */
  lemma BuildDateWarningRule(uuid: string, doc: JsonDocument)
    requires DeriveTimes(doc).Success?
    ensures (NoBuildDateWarning in DeriveReport(uuid, doc).messages) <==> DeriveBuildDate(doc).None?
    ensures DeriveReport(uuid, doc).outcome.Success? ==>
      && DeriveReport(uuid, doc).outcome.value.buildDate == DeriveBuildDate(doc)
      && DeriveReport(uuid, doc).outcome.value.lastCrash == DeriveLastCrash(doc)
  {
    var times := DeriveTimes(doc).value;
    var buildDate := DeriveBuildDate(doc);
    var errors := MissingMessages(doc);
    assert DeriveReport(uuid, doc).messages == errors + Warnings(times, buildDate);
    WarningsBuildDate(times, buildDate);
    NoWarningAmongErrors(doc);
  }

  /** The build-date warning is among the warnings exactly when no build date was
      found. */
  lemma WarningsBuildDate(times: TimeFields, buildDate: Option<BuildDate>)
    ensures (NoBuildDateWarning in Warnings(times, buildDate)) == buildDate.None?
  {
    MessageHeads("BuildID");
  }

  /** No missing-key error is a warning. */
  lemma NoWarningAmongErrors(doc: JsonDocument)
    ensures NoBuildDateWarning !in MissingMessages(doc)
    ensures NoReportDateWarning !in MissingMessages(doc)
  {
    MessageHeads("ProductName");
    MessageHeads("Version");
    MessageHeads("BuildID");
  }

  /** The crash, install and startup times all read as numbers. */
  predicate AllTimesRead(doc: JsonDocument) {
    ReadInt(doc, "CrashTime").IntOk? && ReadInt(doc, "InstallTime").IntOk?
    && ReadInt(doc, "StartupTime").IntOk?
  }

  /** A build identifier that opens with a valid date and hour gives that build date. */
  lemma BuildDateExample()
    ensures DeriveBuildDate(map["BuildID" := JString("2008061611")]) == Some(BuildDate(2008, 6, 16, 11))
  {
    BuildIdGroups();
    assert IsValidDateHour(DigitGroups(2008, 6, 16, 11));
  }

  lemma BuildIdGroups()
    ensures MatchBuildDate("2008061611") == Some(DigitGroups(2008, 6, 16, 11))
  {
    var s := "2008061611";
    BuildIdDigits();
    MatchTenDigits(s);
    GroupsValue(s);
    var g := Groups(s);
    assert g.year == 2008 by {
      assert s[0] == '2' && s[1] == '0' && s[2] == '0' && s[3] == '8';
    }
    assert g.month == 6 && g.day == 16 && g.hour == 11 by {
      assert s[4] == '0' && s[5] == '6' && s[6] == '1' && s[7] == '6' && s[8] == '1' && s[9] == '1';
    }
  }

  lemma BuildIdDigits()
    ensures AllDigits("2008061611")
  {
  }

  lemma InvalidDayDigits()
    ensures AllDigits("2008023011")
  {
  }

  /** Ten digits that do not form a date (the thirtieth of February) give no build
      date. */
  lemma BuildDateRejectsInvalidDay()
    ensures DeriveBuildDate(map["BuildID" := JString("2008023011")]) == None
  {
    var t := "2008023011";
    InvalidDayDigits();
    MatchTenDigits(t);
    GroupsValue(t);
    var g := Groups(t);
    assert g.month == 2 && g.day == 30 by {
      assert t[4] == '0' && t[5] == '2' && t[6] == '3' && t[7] == '0';
    }
    assert !IsValidDateHour(g);
  }
}
