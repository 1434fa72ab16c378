/**
 * ONLYOFFICE callback events: reading one from the request body
 * (adapters/onlyoffice/src/main.rs, callback_event), checking it against the
 * signed payload (routes.rs, signed_callback_matches), validating it (routes.rs,
 * validate_callback) and the bytes its fingerprint is the digest of
 * (runtime.rs, Sha256FingerprintDeriver).
 */
module CallbackEvents {
  import opened Prelude

  /** A UTF-8 string, as its bytes. */
  type Text = seq<Byte>

  // ---- JSON values ------------------------------------------------------------------

  datatype Json =
    | Null
    | Boolean(flag: bool)
    | Unsigned(number: nat)   // a number that fits an unsigned 64-bit integer
    | OtherNumber             // a negative or fractional number
    | Str(text: Text)
    | List(items: seq<Json>)
    | Object(fields: map<string, Json>)
  {
    function Get(key: string): Option<Json> {
      if Object? && key in fields then Some(fields[key]) else None
    }
  }

  function TextOf(value: Option<Json>): Option<Text> {
    if value.Some? && value.value.Str? then Some(value.value.text) else None
  }

  function NumberOf(value: Option<Json>): Option<nat> {
    if value.Some? && value.value.Unsigned? then Some(value.value.number) else None
  }

  // ---- Events -------------------------------------------------------------------------

  datatype Status = Editing | MustSave | SaveError | ClosedNoChanges | ForceSave | ForceSaveError {
    function Code(): Byte {
      match this
      case Editing => 1
      case MustSave => 2
      case SaveError => 3
      case ClosedNoChanges => 4
      case ForceSave => 6
      case ForceSaveError => 7
    }
  }

  datatype SaveType = Command | UserSave | Timer | FormSubmit {
    function Code(): Byte {
      match this
      case Command => 0
      case UserSave => 1
      case Timer => 2
      case FormSubmit => 3
    }
  }

  datatype Activity = Unspecified | Connected | Disconnected {
    function Code(): Byte {
      match this
      case Unspecified => 0
      case Connected => 1
      case Disconnected => 2
    }
  }

  datatype Event = Event(
    documentId: Text, participantId: Text, status: Status, saveType: Option<SaveType>,
    activity: Activity, activityUserId: Text, outputUrl: Option<Text>, fileType: Text,
    providerEventId: Text, revision: Text)

  predicate RequiresOutput(e: Event) { e.status.MustSave? || e.status.ForceSave? }

  // ---- Server versions -------------------------------------------------------------------

  const MAX_SERVER_VERSION: nat := 9_007_199_254_740_991

  predicate Digits(s: Text) { forall i | 0 <= i < |s| :: 48 <= s[i] <= 57 }

  function Decimal(n: nat): (s: Text)
    ensures s != []
  {
    (if n < 10 then [] else Decimal(n / 10)) + [n % 10 + 48]
  }

  function DecimalValue(s: Text): nat
    requires Digits(s)
  {
    if s == [] then 0 else 10 * DecimalValue(s[..|s| - 1]) + (s[|s| - 1] - 48)
  }

  /** A JSON number or a short digit string, as the canonical decimal text of its value. */
  function NormalizeServerVersion(value: Json): Option<Text> {
    var number :=
      match value
      case Unsigned(n) => Some(n)
      case Str(s) => if s != [] && |s| <= 16 && Digits(s) then Some(DecimalValue(s)) else None
      case _ => None;
    if number.Some? && number.value <= MAX_SERVER_VERSION then Some(Decimal(number.value)) else None
  }

  lemma {:induction false} DecimalRoundTrip(n: nat)
    ensures Digits(Decimal(n)) && DecimalValue(Decimal(n)) == n
  {
    var front: Text := if n < 10 then [] else Decimal(n / 10);
    if n >= 10 { DecimalRoundTrip(n / 10); }
    DecimalSnoc(front, n % 10 + 48);
  }

  lemma DecimalSnoc(front: Text, digit: Byte)
    requires Digits(front) && 48 <= digit <= 57
    ensures Digits(front + [digit]) && DecimalValue(front + [digit]) == 10 * DecimalValue(front) + (digit - 48)
  {
    assert (front + [digit])[..|front|] == front;
  }

  function PowerOfTen(k: nat): nat { if k == 0 then 1 else 10 * PowerOfTen(k - 1) }

  lemma {:induction false} DecimalLength(n: nat, k: nat)
    requires k > 0 && n < PowerOfTen(k)
    ensures |Decimal(n)| <= k
  {
    if n >= 10 {
      assert PowerOfTen(1) == 10 * PowerOfTen(0);
      DecimalLength(n / 10, k - 1);
    }
  }

  lemma VersionDigits(n: nat)
    requires n <= MAX_SERVER_VERSION
    ensures |Decimal(n)| <= 16 && Digits(Decimal(n)) && DecimalValue(Decimal(n)) == n
  {
    DecimalRoundTrip(n);
    var k := PowerOfTen(4);
    assert k == 10 * (10 * (10 * (10 * PowerOfTen(0))));
    var l := PowerOfTen(8);
    assert l == 10 * (10 * (10 * (10 * k)));
    var m := PowerOfTen(12);
    assert m == 10 * (10 * (10 * (10 * l)));
    assert PowerOfTen(16) == 10 * (10 * (10 * (10 * m)));
    DecimalLength(n, 16);
  }

  lemma DecimalIsStable(n: nat)
    requires n <= MAX_SERVER_VERSION
    ensures NormalizeServerVersion(Str(Decimal(n))) == Some(Decimal(n))
  {
    VersionDigits(n);
  }

  /** A normalised version is its own normal form, and that of the number it spells. */
  lemma NormalFormIsStable(value: Json, normal: Text)
    requires NormalizeServerVersion(value) == Some(normal)
    ensures NormalizeServerVersion(Str(normal)) == Some(normal)
    ensures exists n :: normal == Decimal(n) && NormalizeServerVersion(Unsigned(n)) == Some(normal)
  {
    var n: nat := if value.Unsigned? then value.number else DecimalValue(value.text);
    assert normal == Decimal(n);
    DecimalIsStable(n);
  }

  /** The versions that have a normal form: small numbers, and up to sixteen digits that spell one. */
  lemma NormalizedIff(value: Json, n: nat)
    ensures NormalizeServerVersion(value) == Some(Decimal(n)) <==>
      && n <= 9_007_199_254_740_991
      && (value == Unsigned(n)
          || (value.Str? && 1 <= |value.text| <= 16 && Digits(value.text) && DecimalValue(value.text) == n))
  {
    if value.Unsigned? {
      DecimalIsInjective(value.number, n);
    } else if value.Str? && Digits(value.text) {
      DecimalIsInjective(DecimalValue(value.text), n);
    }
  }

  lemma DecimalIsInjective(m: nat, n: nat)
    ensures Decimal(m) == Decimal(n) <==> m == n
  {
    DecimalRoundTrip(m);
    DecimalRoundTrip(n);
  }

  /** Two normalised versions are the same text iff they denote the same number. */
  lemma NormalFormsAreFaithful(m: nat, n: nat)
    requires m <= MAX_SERVER_VERSION && n <= MAX_SERVER_VERSION
    ensures NormalizeServerVersion(Unsigned(m)) == NormalizeServerVersion(Unsigned(n)) <==> m == n
  {
    DecimalIsInjective(m, n);
  }

  // ---- The two readings of an event ----------------------------------------------------------

  /** participant_activity_from_actions: exactly one action, by the participant of the route. */
  function ActivityOf(status: Status, actions: Option<Json>, participantId: Text): Option<(Activity, Text)> {
    if !status.Editing? then Some((Unspecified, []))
    else if actions.None? || !actions.value.List? || |actions.value.items| != 1 then None
    else
      var action := actions.value.items[0];
      match TextOf(action.Get("userid"))
      case None => None
      case Some(user) =>
        if user != participantId then None
        else
          match NumberOf(action.Get("type"))
          case None => None
          case Some(kind) =>
            if kind == 0 then Some((Disconnected, user))
            else if kind == 1 then Some((Connected, user))
            else None
  }

  function OrElse<T>(first: Option<T>, second: Option<T>): Option<T> {
    if first.Some? then first else second
  }

  function Normalized(value: Option<Json>): Option<Text> {
    if value.Some? then NormalizeServerVersion(value.value) else None
  }

  /** The revision as callback_event reads it: history.serverVersion, else revision, else nothing. */
  function RevisionOf(body: Json): Text {
    var history := body.Get("history");
    var nested := if history.Some? then Normalized(history.value.Get("serverVersion")) else None;
    match OrElse(nested, Normalized(body.Get("revision"))) case Some(text) => text case None => []
  }

  function EventIdOf(body: Json, revision: Text): Text {
    match OrElse(TextOf(body.Get("userdata")), TextOf(body.Get("event_id")))
    case Some(text) => text
    case None => revision
  }

  function StatusOf(code: nat): Option<Status> {
    match code
    case 1 => Some(Editing)
    case 2 => Some(MustSave)
    case 3 => Some(SaveError)
    case 4 => Some(ClosedNoChanges)
    case 6 => Some(ForceSave)
    case 7 => Some(ForceSaveError)
    case _ => None
  }

  function SaveTypeOf(code: nat): Option<SaveType> {
    match code
    case 0 => Some(Command)
    case 1 => Some(UserSave)
    case 2 => Some(Timer)
    case 3 => Some(FormSubmit)
    case _ => None
  }

  /** callback_event: the event a request body describes on a route, or none. */
  function CallbackEvent(routeDocument: Text, routeParticipant: Text, body: Json): Option<Event> {
    var key, code := TextOf(body.Get("key")), NumberOf(body.Get("status"));
    if key != Some(routeDocument) || code.None? || StatusOf(code.value).None? then None
    else
      var status, save := StatusOf(code.value).value, NumberOf(body.Get("forcesavetype"));
      if save.Some? && SaveTypeOf(save.value).None? then None
      else
        var activity := ActivityOf(status, body.Get("actions"), routeParticipant);
        var fileType := TextOf(body.Get("filetype"));
        if activity.None? || fileType.None? then None
        else
          var revision := RevisionOf(body);
          Some(Event(key.value, routeParticipant, status,
                     if save.None? then None else SaveTypeOf(save.value),
                     activity.value.0, activity.value.1, TextOf(body.Get("url")), fileType.value,
                     EventIdOf(body, revision), revision))
  }

  /** The documented wrapper around a signed payload. */
  function Unwrapped(payload: Json): Json {
    match payload.Get("payload")
    case Some(Object(fields)) => Object(fields)
    case _ => payload
  }

  /** The revision as signed_callback_matches reads it. */
  function SignedRevision(payload: Json): Text {
    match payload.Get("history")
    case Some(history) =>
      (match history.Get("serverVersion")
       case Some(version) =>
         (match NormalizeServerVersion(version) case Some(text) => text case None => SignedFallback(payload))
       case None => SignedFallback(payload))
    case None => SignedFallback(payload)
  }

  function SignedFallback(payload: Json): Text {
    match payload.Get("revision")
    case Some(version) => (match NormalizeServerVersion(version) case Some(text) => text case None => [])
    case None => []
  }

  /** The event identifier as signed_callback_matches reads it. */
  function SignedEventId(payload: Json): Text {
    match TextOf(payload.Get("userdata"))
    case Some(text) => text
    case None =>
      (match TextOf(payload.Get("event_id")) case Some(text) => text case None => SignedRevision(payload))
  }

  /** signed_callback_matches: the independent comparison of an event with the signed payload. */
  predicate SignedCallbackMatches(wrapped: Json, e: Event) {
    var payload := Unwrapped(wrapped);
    && TextOf(payload.Get("key")) == Some(e.documentId)
    && NumberOf(payload.Get("status")) == Some(e.status.Code() as nat)
    && TextOf(payload.Get("url")) == e.outputUrl
    && TextOf(payload.Get("filetype")) == Some(e.fileType)
    && NumberOf(payload.Get("forcesavetype"))
       == (match e.saveType case Some(t) => Some(t.Code() as nat) case None => None)
    && SignedRevision(payload) == e.revision
    && ActivityOf(e.status, payload.Get("actions"), e.participantId) == Some((e.activity, e.activityUserId))
    && SignedEventId(payload) == e.providerEventId
  }

  /** The signed payload matches an event iff reading the payload as a body gives exactly that event. */
  lemma ExtractionsAgree(payload: Json, e: Event)
    ensures SignedCallbackMatches(payload, e)
      <==> CallbackEvent(e.documentId, e.participantId, Unwrapped(payload)) == Some(e)
  {
    CodesAreFaithful(e.status, e.saveType);
  }

  lemma CodesAreFaithful(status: Status, saveType: Option<SaveType>)
    ensures StatusOf(status.Code()) == Some(status)
    ensures forall code: nat :: StatusOf(code) == Some(status) ==> code == status.Code()
    ensures saveType.Some? ==> SaveTypeOf(saveType.value.Code()) == saveType
    ensures saveType.Some? ==> forall code: nat :: SaveTypeOf(code) == saveType ==> code == saveType.value.Code()
  {
  }

  /** So an accepted request body agrees with its signature in every field the event carries. */
  lemma SignedBodyIsTheSignedEvent(document: Text, participant: Text, body: Json, payload: Json, e: Event)
    requires CallbackEvent(document, participant, body) == Some(e)
    requires SignedCallbackMatches(payload, e)
    ensures CallbackEvent(document, participant, Unwrapped(payload)) == CallbackEvent(document, participant, body)
  {
    ExtractionsAgree(payload, e);
  }

  // ---- What an event says of the body it was read from ---------------------------------------------

  predicate IsText(value: Option<Json>, text: Text) { value == Some(Json.Str(text)) }

  predicate IsCode(value: Option<Json>, code: nat) { value == Some(Unsigned(code)) }

  /** The keys and codes behind each field of an event. */
  lemma EventIsRead(document: Text, participant: Text, body: Json, e: Event)
    requires CallbackEvent(document, participant, body) == Some(e)
    ensures IsText(body.Get("key"), document) && e.documentId == document && e.participantId == participant
    ensures IsText(body.Get("filetype"), e.fileType)
    ensures e.status == Editing <==> IsCode(body.Get("status"), 1)
    ensures e.status == MustSave <==> IsCode(body.Get("status"), 2)
    ensures e.status == SaveError <==> IsCode(body.Get("status"), 3)
    ensures e.status == ClosedNoChanges <==> IsCode(body.Get("status"), 4)
    ensures e.status == ForceSave <==> IsCode(body.Get("status"), 6)
    ensures e.status == ForceSaveError <==> IsCode(body.Get("status"), 7)
    ensures e.saveType == Some(Command) <==> IsCode(body.Get("forcesavetype"), 0)
    ensures e.saveType == Some(UserSave) <==> IsCode(body.Get("forcesavetype"), 1)
    ensures e.saveType == Some(Timer) <==> IsCode(body.Get("forcesavetype"), 2)
    ensures e.saveType == Some(FormSubmit) <==> IsCode(body.Get("forcesavetype"), 3)
    ensures forall url :: e.outputUrl == Some(url) <==> IsText(body.Get("url"), url)
  {
  }

  /** Where the revision and the event identifier of an event come from. */
  lemma IdentifiersAreRead(document: Text, participant: Text, body: Json, e: Event)
    requires CallbackEvent(document, participant, body) == Some(e)
    ensures var ofHistory := Normalized(if body.Get("history").Some? then body.Get("history").value.Get("serverVersion")
                                       else None);
      e.revision == if ofHistory.Some? then ofHistory.value
                    else if Normalized(body.Get("revision")).Some? then Normalized(body.Get("revision")).value else []
    ensures forall text :: IsText(body.Get("userdata"), text) ==> e.providerEventId == text
    ensures (forall text :: !IsText(body.Get("userdata"), text)) ==>
      && (forall text :: IsText(body.Get("event_id"), text) ==> e.providerEventId == text)
      && ((forall text :: !IsText(body.Get("event_id"), text)) ==> e.providerEventId == e.revision)
  {
    if TextOf(body.Get("userdata")).Some? {
      assert IsText(body.Get("userdata"), TextOf(body.Get("userdata")).value);
    }
    if TextOf(body.Get("event_id")).Some? {
      assert IsText(body.Get("event_id"), TextOf(body.Get("event_id")).value);
    }
  }

  /** An editing callback reports exactly one connection or disconnection, of the route's own participant. */
  lemma ActivityIff(status: Status, actions: Option<Json>, participant: Text, activity: Activity, user: Text)
    ensures ActivityOf(status, actions, participant) == Some((activity, user)) <==>
      if status != Editing then activity == Unspecified && user == []
      else
        && user == participant && activity in {Connected, Disconnected}
        && actions.Some? && actions.value.List? && |actions.value.items| == 1
        && IsText(actions.value.items[0].Get("userid"), participant)
        && IsCode(actions.value.items[0].Get("type"), if activity == Connected then 1 else 0)
  {
  }

  /** A payload is unwrapped iff its payload is an object. */
  lemma UnwrappedIff(payload: Json)
    ensures Unwrapped(payload) ==
      var inner := payload.Get("payload");
      if inner.Some? && inner.value.Object? then inner.value else payload
  {
  }

  // ---- Validation ---------------------------------------------------------------------------------

  predicate IsUuid(s: Text) {
    |s| == 36 &&
    forall i | 0 <= i < 36 :: ((i == 8 || i == 13 || i == 18 || i == 23) && s[i] == 45) || HexDigit(s[i])
  }

  datatype CallbackError = Malformed | MissingForceSaveType | MissingOutput | UnexpectedOutput | OutputOrigin

  /** docx, xlsx, pptx, odt, ods, odp */
  predicate KnownFileType(s: Text) {
    s in {[100, 111, 99, 120], [120, 108, 115, 120], [112, 112, 116, 120],
          [111, 100, 116], [111, 100, 115], [111, 100, 112]}
  }

  /** validate_callback; `exactUrl` is whether a URL lies exactly in the configured origin. */
  function ValidateCallback(e: Event, exactUrl: Text -> bool): Option<CallbackError> {
    if e.documentId == [] || !IsUuid(e.participantId) then Some(Malformed)
    else if !KnownFileType(e.fileType) then Some(Malformed)
    else if e.status.Editing? && (e.activity.Unspecified? || e.activityUserId != e.participantId)
    then Some(Malformed)
    else if !e.status.Editing? && (!e.activity.Unspecified? || e.activityUserId != []) then Some(Malformed)
    else if e.status.MustSave? && e.revision == [] then Some(Malformed)
    else if (e.status.ForceSave? || e.status.ForceSaveError?) && e.saveType.None? then Some(MissingForceSaveType)
    else if RequiresOutput(e) then
      if e.outputUrl.None? then Some(MissingOutput)
      else if !exactUrl(e.outputUrl.value) then Some(OutputOrigin)
      else None
    else if e.status.SaveError? || e.status.ForceSaveError? then
      if e.outputUrl.Some? && !exactUrl(e.outputUrl.value) then Some(OutputOrigin) else None
    else if e.outputUrl.Some? then Some(UnexpectedOutput)
    else None
  }

  predicate HasExactUrl(e: Event, exactUrl: Text -> bool) { e.outputUrl.Some? && exactUrl(e.outputUrl.value) }

  /** Which events are accepted, status by status. */
  lemma ValidateIff(e: Event, exactUrl: Text -> bool)
    ensures ValidateCallback(e, exactUrl).None? <==>
      && e.documentId != [] && IsUuid(e.participantId)
      && e.fileType in {Ascii("docx"), Ascii("xlsx"), Ascii("pptx"), Ascii("odt"), Ascii("ods"), Ascii("odp")}
      && (if e.status == Editing then e.activity != Unspecified && e.activityUserId == e.participantId
          else e.activity == Unspecified && e.activityUserId == [])
      && match e.status
         case Editing => e.outputUrl.None?
         case MustSave => e.revision != [] && HasExactUrl(e, exactUrl)
         case SaveError => e.outputUrl.None? || HasExactUrl(e, exactUrl)
         case ClosedNoChanges => e.outputUrl.None?
         case ForceSave => e.saveType.Some? && HasExactUrl(e, exactUrl)
         case ForceSaveError => e.saveType.Some? && (e.outputUrl.None? || HasExactUrl(e, exactUrl))
  {
    FileTypesAre(e.fileType);
  }

  lemma FileTypesAre(t: Text)
    ensures KnownFileType(t) <==>
      t in {Ascii("docx"), Ascii("xlsx"), Ascii("pptx"), Ascii("odt"), Ascii("ods"), Ascii("odp")}
  {
    assert Ascii("docx") == [100, 111, 99, 120] && Ascii("xlsx") == [120, 108, 115, 120];
    assert Ascii("pptx") == [112, 112, 116, 120] && Ascii("odt") == [111, 100, 116];
    assert Ascii("ods") == [111, 100, 115] && Ascii("odp") == [111, 100, 112];
  }

  /** The first check that fails names the error. */
  lemma ValidateErrors(e: Event, exactUrl: Text -> bool)
    ensures ValidateCallback(e, exactUrl) == Some(MissingForceSaveType) ==>
      e.status in {ForceSave, ForceSaveError} && e.saveType.None?
    ensures ValidateCallback(e, exactUrl) == Some(MissingOutput) ==>
      e.status in {MustSave, ForceSave} && e.outputUrl.None?
    ensures ValidateCallback(e, exactUrl) == Some(UnexpectedOutput) ==>
      e.status in {Editing, ClosedNoChanges} && e.outputUrl.Some?
    ensures ValidateCallback(e, exactUrl) == Some(OutputOrigin) ==>
      e.outputUrl.Some? && !exactUrl(e.outputUrl.value)
  {
  }

  // ---- The fingerprint's pre-image ------------------------------------------------------------------

  /** "filebelt.onlyoffice.callback.v1" and a zero byte */
  const DOMAIN: Text :=
    [102, 105, 108, 101, 98, 101, 108, 116, 46, 111, 110, 108, 121, 111, 102, 102, 105, 99, 101, 46,
     99, 97, 108, 108, 98, 97, 99, 107, 46, 118, 49, 0]

  function BigEndian(n: nat, width: nat): (s: seq<Byte>)
    ensures |s| == width
  {
    if width == 0 then [] else BigEndian(n / 256, width - 1) + [n % 256]
  }

  /** add_field: a text behind its 64-bit length. */
  function Delimited(text: Text): seq<Byte> { BigEndian(|text|, 8) + text }

  function UrlOrEmpty(e: Event): Text { match e.outputUrl case Some(url) => url case None => [] }

  function Preimage(e: Event): seq<Byte> {
    DOMAIN + (Delimited(e.documentId)
      + ([e.status.Code(), if e.saveType.Some? then e.saveType.value.Code() else 255, e.activity.Code()]
      + (Delimited(e.activityUserId) + (Delimited(UrlOrEmpty(e))
      + (Delimited(e.providerEventId) + Delimited(e.revision))))))
  }

  /** A big-endian number read back. */
  function FromBigEndian(s: seq<Byte>): nat {
    if s == [] then 0 else 256 * FromBigEndian(s[..|s| - 1]) + s[|s| - 1]
  }

  lemma {:induction false} BigEndianIsReadBack(n: nat, width: nat)
    requires n < PowerOf256(width)
    ensures FromBigEndian(BigEndian(n, width)) == n
  {
    if width > 0 {
      var s := BigEndian(n, width);
      assert s[..width - 1] == BigEndian(n / 256, width - 1) && s[width - 1] == n % 256;
      BigEndianIsReadBack(n / 256, width - 1);
    }
  }

  /** A text behind its 64-bit length, and what follows it. */
  function ReadDelimited(s: seq<Byte>): Option<(Text, seq<Byte>)> {
    if |s| < 8 || |s| - 8 < FromBigEndian(s[..8]) then None
    else var n := 8 + FromBigEndian(s[..8]); Some((s[8..n], s[n..]))
  }

  lemma DelimitedIsReadBack(text: Text, rest: seq<Byte>)
    requires |text| < U64
    ensures ReadDelimited(Delimited(text) + rest) == Some((text, rest))
  {
    LengthFits(|text|);
    BigEndianIsReadBack(|text|, 8);
    var s, n := Delimited(text) + rest, 8 + |text|;
    assert s[..8] == BigEndian(|text|, 8) && s[8..n] == text && s[n..] == rest;
  }

  function ReadTexts(s: seq<Byte>, count: nat): Option<seq<Text>> {
    if count == 0 then (if s == [] then Some([]) else None)
    else
      match ReadDelimited(s)
      case None => None
      case Some((text, rest)) =>
        match ReadTexts(rest, count - 1)
        case None => None
        case Some(texts) => Some([text] + texts)
  }

  lemma ReadTextsStep(text: Text, rest: seq<Byte>, count: nat, texts: seq<Text>)
    requires |text| < U64 && ReadTexts(rest, count) == Some(texts)
    ensures ReadTexts(Delimited(text) + rest, count + 1) == Some([text] + texts)
  {
    DelimitedIsReadBack(text, rest);
  }

  lemma FourAreReadBack(a: Text, b: Text, c: Text, d: Text)
    requires |a| < U64 && |b| < U64 && |c| < U64 && |d| < U64
    ensures ReadTexts(Delimited(a) + (Delimited(b) + (Delimited(c) + Delimited(d))), 4) == Some([a, b, c, d])
  {
    ReadTextsStep(d, [], 0, []);
    assert Delimited(d) + [] == Delimited(d) && [d] + [] == [d];
    ReadTextsStep(c, Delimited(d), 1, [d]);
    assert [c] + [d] == [c, d];
    ReadTextsStep(b, Delimited(c) + Delimited(d), 2, [c, d]);
    assert [b] + [c, d] == [b, c, d];
    ReadTextsStep(a, Delimited(b) + (Delimited(c) + Delimited(d)), 3, [b, c, d]);
    assert [a] + [b, c, d] == [a, b, c, d];
  }

  /** The bytes that are hashed: what stands where. */
  lemma PreimageIsReadBack(e: Event)
    requires Addressable(e)
    ensures var s := Preimage(e);
      && |s| >= 32 && s[..32] == Ascii("filebelt.onlyoffice.callback.v1") + [0]
      && ReadDelimited(s[32..]).Some? && ReadDelimited(s[32..]).value.0 == e.documentId
      && var rest := ReadDelimited(s[32..]).value.1;
      && |rest| >= 3
      && rest[0] == (match e.status case Editing => 1 case MustSave => 2 case SaveError => 3
                     case ClosedNoChanges => 4 case ForceSave => 6 case ForceSaveError => 7)
      && rest[1] == (match e.saveType case None => 255 case Some(Command) => 0 case Some(UserSave) => 1
                     case Some(Timer) => 2 case Some(FormSubmit) => 3)
      && rest[2] == (match e.activity case Unspecified => 0 case Connected => 1 case Disconnected => 2)
      && var url := if e.outputUrl.Some? then e.outputUrl.value else [];
      ReadTexts(rest[3..], 4) == Some([e.activityUserId, url, e.providerEventId, e.revision])
  {
    DomainIs();
    var codes: seq<Byte> :=
      [e.status.Code(), if e.saveType.Some? then e.saveType.value.Code() else 255, e.activity.Code()];
    var texts := Delimited(e.activityUserId) + (Delimited(UrlOrEmpty(e))
      + (Delimited(e.providerEventId) + Delimited(e.revision)));
    var tail := Delimited(e.documentId) + (codes + texts);
    var s := Preimage(e);
    assert s == DOMAIN + tail;
    SplitsAt(DOMAIN, tail);
    assert s[..32] == DOMAIN && s[32..] == tail;
    DelimitedIsReadBack(e.documentId, codes + texts);
    SplitsAt(codes, texts);
    assert (codes + texts)[3..] == texts;
    FourAreReadBack(e.activityUserId, UrlOrEmpty(e), e.providerEventId, e.revision);
  }

  lemma SplitsAt(a: seq<Byte>, b: seq<Byte>)
    ensures (a + b)[..|a|] == a && (a + b)[|a|..] == b
  {
  }

  lemma DomainIs()
    ensures |DOMAIN| == 32 && DOMAIN == Ascii("filebelt.onlyoffice.callback.v1") + [0]
  {
  }

  /** Texts are shorter than the 64-bit length that delimits them. */
  predicate Addressable(e: Event) {
    && |e.documentId| < U64 && |e.activityUserId| < U64 && |UrlOrEmpty(e)| < U64
    && |e.providerEventId| < U64 && |e.revision| < U64
  }

  function PowerOf256(k: nat): nat { if k == 0 then 1 else 256 * PowerOf256(k - 1) }

  lemma {:induction false} BigEndianInjective(m: nat, n: nat, width: nat)
    requires m < PowerOf256(width) && n < PowerOf256(width) && BigEndian(m, width) == BigEndian(n, width)
    ensures m == n
  {
    if width > 0 {
      var a, b := BigEndian(m, width), BigEndian(n, width);
      assert a[..width - 1] == BigEndian(m / 256, width - 1) && b[..width - 1] == BigEndian(n / 256, width - 1);
      assert a[width - 1] == m % 256 && b[width - 1] == n % 256;
      BigEndianInjective(m / 256, n / 256, width - 1);
    }
  }

  lemma LengthFits(n: nat)
    requires n < U64
    ensures n < PowerOf256(8)
  {
    assert PowerOf256(4) == 0x1_0000_0000;
    assert PowerOf256(8) == 256 * (256 * (256 * (256 * PowerOf256(4))));
  }

  /** A delimited text can be split off the front in one way only. */
  lemma DelimitedSplits(a: Text, x: seq<Byte>, b: Text, y: seq<Byte>)
    requires |a| < U64 && |b| < U64 && Delimited(a) + x == Delimited(b) + y
    ensures a == b && x == y
  {
    var s, t := Delimited(a) + x, Delimited(b) + y;
    assert s[..8] == BigEndian(|a|, 8) && t[..8] == BigEndian(|b|, 8);
    LengthFits(|a|);
    LengthFits(|b|);
    BigEndianInjective(|a|, |b|, 8);
    assert s[8..8 + |a|] == a && t[8..8 + |b|] == b;
    assert s[8 + |a|..] == x && t[8 + |b|..] == y;
  }

  /** The event fields a fingerprint covers; participant and file type are not among them. */
  predicate SameCoveredFields(a: Event, b: Event) {
    && a.documentId == b.documentId && a.status == b.status && a.saveType == b.saveType
    && a.activity == b.activity && a.activityUserId == b.activityUserId
    && a.providerEventId == b.providerEventId && a.revision == b.revision
  }

  /** Pre-images agree iff the covered fields agree, an absent URL counting as an empty one. */
  lemma PreimageIff(a: Event, b: Event)
    requires Addressable(a) && Addressable(b)
    ensures Preimage(a) == Preimage(b) <==> SameCoveredFields(a, b) && UrlOrEmpty(a) == UrlOrEmpty(b)
  {
    if Preimage(a) == Preimage(b) {
      var restA, restB := Preimage(a)[|DOMAIN|..], Preimage(b)[|DOMAIN|..];
      SplitPreimage(a, restA);
      SplitPreimage(b, restB);
      var codesA := [a.status.Code(), if a.saveType.Some? then a.saveType.value.Code() else 255, a.activity.Code()];
      var codesB := [b.status.Code(), if b.saveType.Some? then b.saveType.value.Code() else 255, b.activity.Code()];
      DelimitedSplits(a.documentId, codesA + AfterCodes(a), b.documentId, codesB + AfterCodes(b));
      assert codesA == (codesA + AfterCodes(a))[..3] == (codesB + AfterCodes(b))[..3] == codesB;
      assert codesA[0] == codesB[0] && codesA[1] == codesB[1] && codesA[2] == codesB[2];
      assert AfterCodes(a) == (codesA + AfterCodes(a))[3..] == (codesB + AfterCodes(b))[3..] == AfterCodes(b);
      AfterCodesSplit(a, b);
    }
  }

  function AfterCodes(e: Event): seq<Byte> {
    Delimited(e.activityUserId) + (Delimited(UrlOrEmpty(e)) + (Delimited(e.providerEventId) + Delimited(e.revision)))
  }

  lemma SplitPreimage(e: Event, rest: seq<Byte>)
    requires rest == Preimage(e)[|DOMAIN|..]
    ensures rest == Delimited(e.documentId)
      + ([e.status.Code(), if e.saveType.Some? then e.saveType.value.Code() else 255, e.activity.Code()]
         + AfterCodes(e))
  {
  }

  lemma AfterCodesSplit(a: Event, b: Event)
    requires Addressable(a) && Addressable(b) && AfterCodes(a) == AfterCodes(b)
    ensures a.activityUserId == b.activityUserId && UrlOrEmpty(a) == UrlOrEmpty(b)
    ensures a.providerEventId == b.providerEventId && a.revision == b.revision
  {
    var idsA := Delimited(a.providerEventId) + Delimited(a.revision);
    var idsB := Delimited(b.providerEventId) + Delimited(b.revision);
    DelimitedSplits(a.activityUserId, Delimited(UrlOrEmpty(a)) + idsA,
                    b.activityUserId, Delimited(UrlOrEmpty(b)) + idsB);
    DelimitedSplits(UrlOrEmpty(a), idsA, UrlOrEmpty(b), idsB);
    DelimitedSplits(a.providerEventId, Delimited(a.revision), b.providerEventId, Delimited(b.revision));
    assert Delimited(a.revision) + [] == Delimited(b.revision) + [];
    DelimitedSplits(a.revision, [], b.revision, []);
  }

  /** On validated events the URL is covered too: validation separates an absent URL from an empty one. */
  lemma ValidatedPreimageIff(a: Event, b: Event, exactUrl: Text -> bool)
    requires Addressable(a) && Addressable(b)
    requires ValidateCallback(a, exactUrl).None? && ValidateCallback(b, exactUrl).None?
    requires !exactUrl([])
    ensures Preimage(a) == Preimage(b) <==> SameCoveredFields(a, b) && a.outputUrl == b.outputUrl
  {
    PreimageIff(a, b);
  }

  /** Without validation an absent and an empty URL share a fingerprint. */
  lemma EmptyUrlIsNotSeparated(e: Event)
    ensures Preimage(e.(outputUrl := None)) == Preimage(e.(outputUrl := Some([])))
  {
  }
}
