/** The application error: building it, wrapping it, and reading it back from any Go error. */
module Errors {
  import opened Common
  import opened ErrorFields
  import opened ErrorMetadata

  const OK := 0
  const CANCELED := 1
  const INVALID_ARGUMENT := 3
  const DEADLINE_EXCEEDED := 4
  const NOT_FOUND := 5
  const ALREADY_EXISTS := 6
  const PERMISSION_DENIED := 7
  const RESOURCE_EXHAUSTED := 8
  const INTERNAL := 13
  const UNAVAILABLE := 14
  const UNAUTHENTICATED := 16

  const ERROR_DOMAIN := "zengo.platform/sdk/errx"
  const ERROR_REASON := "APPLICATION_ERROR"
  const METADATA_MESSAGE := "message"
  const METADATA_PUBLIC_MESSAGE := "public_message"

  datatype AppError = AppError(code: nat, message: string, publicMessage: string, fields: seq<Field>, cause: Option<Failure>)

  datatype Detail =
    | ErrorInfo(domain: string, reason: string, metadata: map<string, string>)
    | DebugInfo(detail: string)
    | OtherDetail

  datatype GrpcStatus = GrpcStatus(code: nat, message: string, details: seq<Detail>)

  /**
   * A non-nil Go error: an application error, a gRPC status with its text, an error with only a text,
   * of which the contexts' errors are two, or one wrapped by another text.
   */
  datatype Failure =
    | App(err: AppError)
    | Status(status: GrpcStatus, text: string)
    | Plain(text: string, canceled: bool, deadlineExceeded: bool)
    | Wrapped(text: string, inner: Failure)

  datatype ErrorOption = Public(message: string) | Fields(list: seq<Field>)

  // ---- what the standard library answers about an error -----------------------------------------------------

  function FirstApp(f: Failure): Option<AppError> {
    match f
    case App(err) => Some(err)
    case Wrapped(_, inner) => FirstApp(inner)
    case _ => None
  }

  /** The status in a chain without an application error; a wrapper's whole text becomes the message. */
  function StatusOf(f: Failure): Option<GrpcStatus> {
    match f
    case Status(status, _) => Some(status)
    case Wrapped(text, inner) =>
      var found := StatusOf(inner);
      if found.Some? then Some(found.value.(message := text)) else None
    case _ => None
  }

  predicate IsCanceled(f: Failure) {
    match f
    case App(err) => err.cause.Some? && IsCanceled(err.cause.value)
    case Status(_, _) => false
    case Plain(_, canceled, _) => canceled
    case Wrapped(_, inner) => IsCanceled(inner)
  }

  predicate IsDeadlineExceeded(f: Failure) {
    match f
    case App(err) => err.cause.Some? && IsDeadlineExceeded(err.cause.value)
    case Status(_, _) => false
    case Plain(_, _, deadlineExceeded) => deadlineExceeded
    case Wrapped(_, inner) => IsDeadlineExceeded(inner)
  }

  function Text(f: Failure): string {
    match f
    case App(err) =>
      var own := if err.message != "" then err.message else err.publicMessage;
      (match err.cause
       case None => own
       case Some(cause) =>
         var below := Text(cause);
         if own == "" || below == own then below
         else if below == "" then own
         else own + ": " + below)
    case Status(_, text) => text
    case Plain(text, _, _) => text
    case Wrapped(text, _) => text
  }

  // ---- building errors -----------------------------------------------------------------------------------------

  function NormalizeCode(code: nat): nat {
    if code == OK then INTERNAL else code
  }

  function PickCode(preferred: nat, fallback: nat): nat {
    if preferred != OK then NormalizeCode(preferred) else NormalizeCode(fallback)
  }

  function DefaultPublicMessage(code: nat): string {
    var c := NormalizeCode(code);
    if c == INVALID_ARGUMENT then "invalid request"
    else if c == NOT_FOUND then "resource not found"
    else if c == ALREADY_EXISTS then "resource already exists"
    else if c == PERMISSION_DENIED then "permission denied"
    else if c == UNAUTHENTICATED then "authentication required"
    else if c == DEADLINE_EXCEEDED then "request timeout"
    else if c == UNAVAILABLE then "service temporarily unavailable"
    else if c == RESOURCE_EXHAUSTED then "resource limit exceeded"
    else if c == CANCELED then "request canceled"
    else "internal server error"
  }

  function FinalizeMessages(e: AppError): AppError {
    var e1 := if e.message == "" && e.cause.Some? then e.(message := Text(e.cause.value)) else e;
    var e2 := if e1.publicMessage == "" then e1.(publicMessage := DefaultPublicMessage(e1.code)) else e1;
    if e2.message == "" then e2.(message := e2.publicMessage) else e2
  }

  /** The public message and the fields that the options set: the last message, and all fields merged in turn. */
  function Applied(opts: seq<ErrorOption>): (string, seq<Field>) {
    if opts == [] then ("", [])
    else
      var (publicMessage, fields) := Applied(opts[..|opts| - 1]);
      match opts[|opts| - 1]
      case Public(message) => (message, fields)
      case Fields(list) => (publicMessage, Merge(fields, list))
  }

  method ApplyOptions(opts: seq<ErrorOption>) returns (publicMessage: string, fields: seq<Field>)
    ensures (publicMessage, fields) == Applied(opts)
  {
    publicMessage, fields := "", [];
    for i := 0 to |opts|
      invariant (publicMessage, fields) == Applied(opts[..i])
    {
      assert opts[..i + 1][..i] == opts[..i];
      match opts[i] {
        case Public(message) => publicMessage := message;
        case Fields(list) => fields := MergeFields(fields, list);
      }
    }
    assert opts[..|opts|] == opts;
  }

  /** The option gives the field key a value. */
  predicate Gives(o: ErrorOption, key: string) {
    o.Fields? && ValueOf(o.list, key).Some?
  }

  ghost predicate LastPublic(opts: seq<ErrorOption>, i: nat) {
    i < |opts| && opts[i].Public? && forall j :: i < j < |opts| ==> !opts[j].Public?
  }

  ghost predicate LastGiving(opts: seq<ErrorOption>, key: string, i: nat) {
    i < |opts| && Gives(opts[i], key) && forall j :: i < j < |opts| ==> !Gives(opts[j], key)
  }

  lemma {:induction false} LastPublicWins(opts: seq<ErrorOption>, i: nat)
    requires LastPublic(opts, i)
    ensures Applied(opts).0 == opts[i].message
  {
    hide Merge;
    var before := opts[..|opts| - 1];
    if i < |before| {
      assert before[i] == opts[i] && forall j :: 0 <= j < |before| ==> before[j] == opts[j];
      LastPublicWins(before, i);
    }
  }

  lemma {:induction false} NothingPublic(opts: seq<ErrorOption>)
    requires forall i :: 0 <= i < |opts| ==> !opts[i].Public?
    ensures Applied(opts).0 == ""
  {
    hide Merge;
    if opts != [] {
      NothingPublic(opts[..|opts| - 1]);
    }
  }

  /** The last public message wins. */
  lemma AppliedPublic(opts: seq<ErrorOption>)
    ensures forall i: nat :: LastPublic(opts, i) ==> Applied(opts).0 == opts[i].message
    ensures (forall o :: o in opts ==> !o.Public?) ==> Applied(opts).0 == ""
  {
    hide Applied;
    forall i: nat | LastPublic(opts, i)
      ensures Applied(opts).0 == opts[i].message
    {
      LastPublicWins(opts, i);
    }
    if forall o :: o in opts ==> !o.Public? {
      NothingPublic(opts);
    }
  }

  lemma AppliedFieldNext(opts: seq<ErrorOption>, key: string)
    requires key != "" && opts != []
    ensures var before, last := opts[..|opts| - 1], opts[|opts| - 1];
      ValueOf(Applied(opts).1, key) == if Gives(last, key) then ValueOf(last.list, key) else ValueOf(Applied(before).1, key)
  {
    hide ValueOf, Merge;
    if opts[|opts| - 1].Fields? {
      MergeMeaning(Applied(opts[..|opts| - 1]).1, opts[|opts| - 1].list);
    }
  }

  lemma {:induction false} LastFieldWins(opts: seq<ErrorOption>, key: string, i: nat)
    requires key != "" && LastGiving(opts, key, i)
    ensures ValueOf(Applied(opts).1, key) == ValueOf(opts[i].list, key)
  {
    AppliedFieldNext(opts, key);
    hide ValueOf, Applied, Gives;
    var before := opts[..|opts| - 1];
    if i < |before| {
      assert before[i] == opts[i] && forall j :: 0 <= j < |before| ==> before[j] == opts[j];
      LastFieldWins(before, key, i);
    }
  }

  lemma {:induction false} NothingGiven(opts: seq<ErrorOption>, key: string)
    requires key != "" && forall i :: 0 <= i < |opts| ==> !Gives(opts[i], key)
    ensures ValueOf(Applied(opts).1, key) == None
  {
    if opts != [] {
      AppliedFieldNext(opts, key);
      hide ValueOf, Applied, Gives;
      NothingGiven(opts[..|opts| - 1], key);
    }
  }

  /** Each field has the value of the last option that gives it one. */
  lemma AppliedFields(opts: seq<ErrorOption>, key: string)
    requires key != ""
    ensures forall i: nat :: LastGiving(opts, key, i) ==> opts[i].Fields? && ValueOf(Applied(opts).1, key) == ValueOf(opts[i].list, key)
    ensures (forall o :: o in opts ==> !Gives(o, key)) ==> ValueOf(Applied(opts).1, key) == None
  {
    hide Applied, ValueOf;
    forall i: nat | LastGiving(opts, key, i)
      ensures ValueOf(Applied(opts).1, key) == ValueOf(opts[i].list, key)
    {
      LastFieldWins(opts, key, i);
    }
    if forall o :: o in opts ==> !Gives(o, key) {
      NothingGiven(opts, key);
    }
  }

  function New(code: nat, message: string, opts: seq<ErrorOption>): AppError {
    var (publicMessage, fields) := Applied(opts);
    FinalizeMessages(AppError(NormalizeCode(code), message, publicMessage, Merge([], fields), None))
  }

  // ---- reading errors --------------------------------------------------------------------------------------------

  predicate IsErrxDetail(d: Detail) {
    d.ErrorInfo? && d.domain == ERROR_DOMAIN && d.reason == ERROR_REASON
  }

  predicate HasErrxDetails(st: GrpcStatus) {
    exists d :: d in st.details && IsErrxDetail(d)
  }

  function ValueOr(metadata: map<string, string>, key: string, fallback: string): string {
    if key in metadata && metadata[key] != "" then metadata[key] else fallback
  }

  ghost function ReadDetail(e: AppError, d: Detail): AppError {
    match d
    case ErrorInfo(domain, reason, metadata) =>
      if !IsErrxDetail(d) then e
      else e.(message := ValueOr(metadata, METADATA_MESSAGE, e.message),
              publicMessage := ValueOr(metadata, METADATA_PUBLIC_MESSAGE, e.publicMessage),
              fields := Decode(metadata))
    case DebugInfo(detail) => if e.message == "" && detail != "" then e.(message := detail) else e
    case OtherDetail => e
  }

  ghost function ReadDetails(e: AppError, details: seq<Detail>): AppError {
    if details == [] then e else ReadDetail(ReadDetails(e, details[..|details| - 1]), details[|details| - 1])
  }

  ghost function OfStatus(st: GrpcStatus, cause: Failure): AppError {
    FinalizeMessages(ReadDetails(AppError(NormalizeCode(st.code), st.message, st.message, [], Some(cause)), st.details))
  }

  method FromStatus(st: GrpcStatus, cause: Failure) returns (out: AppError)
    ensures out == OfStatus(st, cause)
  {
    out := AppError(NormalizeCode(st.code), st.message, st.message, [], Some(cause));
    ghost var start := out;
    for i := 0 to |st.details|
      invariant out == ReadDetails(start, st.details[..i])
    {
      assert st.details[..i + 1][..i] == st.details[..i];
      match st.details[i] {
        case ErrorInfo(domain, reason, metadata) =>
          if domain == ERROR_DOMAIN && reason == ERROR_REASON {
            var msg := ValueOr(metadata, METADATA_MESSAGE, "");
            if msg != "" {
              out := out.(message := msg);
            }
            var publicMsg := ValueOr(metadata, METADATA_PUBLIC_MESSAGE, "");
            if publicMsg != "" {
              out := out.(publicMessage := publicMsg);
            }
            var fields := DecodeFields(metadata);
            out := out.(fields := fields);
          }
        case DebugInfo(detail) =>
          if out.message == "" && detail != "" {
            out := out.(message := detail);
          }
        case OtherDetail =>
      }
    }
    assert st.details[..|st.details|] == st.details;
    out := FinalizeMessages(out);
  }

  function CodeFromError(f: Failure): nat {
    if IsCanceled(f) then CANCELED
    else if IsDeadlineExceeded(f) then DEADLINE_EXCEEDED
    else if StatusOf(f).Some? then StatusOf(f).value.code
    else INTERNAL
  }

  ghost function FromError(f: Failure): AppError {
    if FirstApp(f).Some? then FirstApp(f).value
    else if StatusOf(f).Some? then OfStatus(StatusOf(f).value, f)
    else FinalizeMessages(AppError(CodeFromError(f), Text(f), "", [], Some(f)))
  }

  ghost function Wrap(f: Failure, code: nat, message: string, opts: seq<ErrorOption>): AppError {
    var (publicMessage, fields) := Applied(opts);
    var base := FromError(f);
    FinalizeMessages(AppError(PickCode(code, base.code),
                              if message != "" then message else base.message,
                              if publicMessage != "" then publicMessage else base.publicMessage,
                              Merge(base.fields, fields),
                              Some(f)))
  }

  ghost function Normalize(f: Failure, opts: seq<ErrorOption>): AppError {
    var (_, fields) := Applied(opts);
    var base := FromError(f);
    if fields == [] then base else FinalizeMessages(base.(fields := Merge(base.fields, fields)))
  }

  /** What the server interceptor returns for a handler's error. */
  ghost function ServerError(f: Failure): AppError {
    if FirstApp(f).Some? then FinalizeMessages(FirstApp(f).value)
    else if StatusOf(f).Some? then
      var st := StatusOf(f).value;
      if HasErrxDetails(st) then FinalizeMessages(OfStatus(st, f))
      else Wrap(f, st.code, st.message, [Public(st.message)])
    else Wrap(f, CodeFromError(f), Text(f), [])
  }

  function GRPCStatus(e: AppError): GrpcStatus {
    GrpcStatus(NormalizeCode(e.code), e.publicMessage, [ErrorInfo(ERROR_DOMAIN, ERROR_REASON, map[])])
  }

  // ---- every error is well formed --------------------------------------------------------------------------------

  predicate WellFormed(e: AppError) {
    Proper(e.fields) && e.code != OK && e.message != "" && e.publicMessage != ""
  }

  lemma FinalizedWellFormed(e: AppError)
    requires Proper(e.fields) && e.code != OK
    ensures WellFormed(FinalizeMessages(e))
  {
  }

  lemma MergedProper(base: seq<Field>, extra: seq<Field>)
    requires Proper(base)
    ensures Proper(Merge(base, extra))
  {
    AllNamed(base);
    MergeProperExactly(base, extra);
  }

  lemma {:induction false} ReadDetailsShape(e: AppError, details: seq<Detail>)
    requires Proper(e.fields)
    ensures var out := ReadDetails(e, details);
      Proper(out.fields) && out.code == e.code && out.cause == e.cause
    ensures e.publicMessage != "" ==> ReadDetails(e, details).publicMessage != ""
    ensures (forall d :: d in details ==> !IsErrxDetail(d)) ==> ReadDetails(e, details).publicMessage == e.publicMessage
    decreases |details|
  {
    if details != [] {
      hide Decode, Proper;
      ReadDetailsShape(e, details[..|details| - 1]);
      var last := details[|details| - 1];
      if IsErrxDetail(last) {
        DecodeProper(last.metadata);
      }
    }
  }

  lemma OfStatusWellFormed(st: GrpcStatus, cause: Failure)
    ensures WellFormed(OfStatus(st, cause))
  {
    var start := AppError(NormalizeCode(st.code), st.message, st.message, [], Some(cause));
    ReadDetailsShape(start, st.details);
    FinalizedWellFormed(ReadDetails(start, st.details));
  }

  lemma NewWellFormed(code: nat, message: string, opts: seq<ErrorOption>)
    ensures WellFormed(New(code, message, opts))
  {
    MergedProper([], Applied(opts).1);
  }

  /** What FromError reads is the first application error in the chain, or else well formed. */
  lemma FromErrorExactly(f: Failure)
    ensures WellFormed(FromError(f)) <==> (FirstApp(f).Some? ==> WellFormed(FirstApp(f).value))
  {
    if FirstApp(f).None? && StatusOf(f).Some? {
      OfStatusWellFormed(StatusOf(f).value, f);
    }
  }

  /** Wrap repairs everything but repeated keys. */
  lemma WrapExactly(f: Failure, code: nat, message: string, opts: seq<ErrorOption>)
    ensures WellFormed(Wrap(f, code, message, opts)) <==> Proper(Named(FromError(f).fields))
  {
    hide FromError, Merge;
    MergeProperExactly(FromError(f).fields, Applied(opts).1);
  }

  /**
   * What the caller of Wrap gives wins, what it leaves open comes from the wrapped error, and no field
   * of either is lost.
   */
  lemma WrapPrefersCaller(f: Failure, code: nat, message: string, opts: seq<ErrorOption>)
    requires WellFormed(FromError(f))
    ensures var w, base, (publicMessage, fields) := Wrap(f, code, message, opts), FromError(f), Applied(opts);
      && w.cause == Some(f)
      && w.code == (if code != OK then code else base.code)
      && w.message == (if message != "" then message else base.message)
      && w.publicMessage == (if publicMessage != "" then publicMessage else base.publicMessage)
      && forall key :: key != "" ==>
           ValueOf(w.fields, key) == if ValueOf(fields, key).Some? then ValueOf(fields, key) else ValueOf(base.fields, key)
  {
    hide FromError, Merge, Applied, ValueOf, Proper;
    MergeMeaning(FromError(f).fields, Applied(opts).1);
  }

  lemma NormalizeWellFormed(f: Failure, opts: seq<ErrorOption>)
    requires WellFormed(FromError(f))
    ensures WellFormed(Normalize(f, opts))
  {
    hide FromError, Merge, Proper;
    MergedProper(FromError(f).fields, Applied(opts).1);
  }

  lemma WrapOfWellFormed(f: Failure, code: nat, message: string, opts: seq<ErrorOption>)
    requires WellFormed(FromError(f))
    ensures WellFormed(Wrap(f, code, message, opts))
  {
    hide FromError;
    AllNamed(FromError(f).fields);
    WrapExactly(f, code, message, opts);
  }

  lemma ServerErrorWellFormed(f: Failure)
    requires WellFormed(FromError(f))
    ensures WellFormed(ServerError(f))
  {
    hide Merge, Proper, Wrap, OfStatus;
    if FirstApp(f).None? {
      if StatusOf(f).Some? {
        var st := StatusOf(f).value;
        OfStatusWellFormed(st, f);
        WrapOfWellFormed(f, st.code, st.message, [Public(st.message)]);
      } else {
        WrapOfWellFormed(f, CodeFromError(f), Text(f), []);
      }
    }
  }

  /** Any nesting of the package's functions and of Go's own wrapping, over errors from elsewhere and zero Errors. */
  datatype Term =
    | MakeZero
    | MakeNew(code: nat, message: string, opts: seq<ErrorOption>)
    | Foreign(text: string, canceled: bool, deadlineExceeded: bool)
    | FromPeer(status: GrpcStatus, text: string)
    | MakeWrap(inner: Term, code: nat, message: string, opts: seq<ErrorOption>)
    | MakeNormalized(inner: Term, opts: seq<ErrorOption>)
    | MakeFromError(inner: Term)
    | MakeServerError(inner: Term)
    | FmtWrap(text: string, inner: Term)

  ghost function Eval(t: Term): Failure {
    match t
    case MakeZero => App(AppError(OK, "", "", [], None))
    case MakeNew(code, message, opts) => App(New(code, message, opts))
    case Foreign(text, canceled, deadlineExceeded) => Plain(text, canceled, deadlineExceeded)
    case FromPeer(status, text) => Status(status, text)
    case MakeWrap(inner, code, message, opts) => App(Wrap(Eval(inner), code, message, opts))
    case MakeNormalized(inner, opts) => App(Normalize(Eval(inner), opts))
    case MakeFromError(inner) => App(FromError(Eval(inner)))
    case MakeServerError(inner) => App(ServerError(Eval(inner)))
    case FmtWrap(text, inner) => Wrapped(text, Eval(inner))
  }

  /** Every zero Error lies below a call of Wrap. */
  predicate ZerosAreWrapped(t: Term) {
    match t
    case MakeZero => false
    case MakeNormalized(inner, _) => ZerosAreWrapped(inner)
    case MakeFromError(inner) => ZerosAreWrapped(inner)
    case MakeServerError(inner) => ZerosAreWrapped(inner)
    case FmtWrap(_, inner) => ZerosAreWrapped(inner)
    case _ => true
  }

  lemma NormalizeKeepsCode(f: Failure, opts: seq<ErrorOption>)
    requires Proper(FromError(f).fields)
    ensures Normalize(f, opts).code == FromError(f).code && Proper(Normalize(f, opts).fields)
  {
    hide FromError, Merge, Proper;
    MergedProper(FromError(f).fields, Applied(opts).1);
  }

  lemma WrapOfProper(f: Failure, code: nat, message: string, opts: seq<ErrorOption>)
    requires Proper(FromError(f).fields)
    ensures WellFormed(Wrap(f, code, message, opts))
  {
    hide FromError;
    AllNamed(FromError(f).fields);
    WrapExactly(f, code, message, opts);
  }

  /**
   * Whatever the nesting, the error that comes out has unique non-empty keys; it has a code other than OK
   * and both messages if and only if every zero Error in it lies below a Wrap, and no code at all otherwise.
   */
  lemma {:induction false} EveryNestingExactly(t: Term)
    ensures Proper(FromError(Eval(t)).fields)
    ensures WellFormed(FromError(Eval(t))) <==> ZerosAreWrapped(t)
    ensures !ZerosAreWrapped(t) ==> FirstApp(Eval(t)).Some? && FromError(Eval(t)).code == OK
  {
    hide New, Wrap, Normalize, ServerError, OfStatus, Proper;
    FromErrorExactly(Eval(t));
    match t {
      case MakeZero =>
        NothingIsProper();
      case MakeNew(code, message, opts) =>
        NewWellFormed(code, message, opts);
      case MakeWrap(inner, code, message, opts) =>
        EveryNestingExactly(inner);
        WrapOfProper(Eval(inner), code, message, opts);
      case MakeNormalized(inner, opts) =>
        EveryNestingExactly(inner);
        NormalizeKeepsCode(Eval(inner), opts);
        if ZerosAreWrapped(inner) {
          NormalizeWellFormed(Eval(inner), opts);
        }
      case MakeFromError(inner) =>
        EveryNestingExactly(inner);
      case MakeServerError(inner) =>
        EveryNestingExactly(inner);
        if ZerosAreWrapped(inner) {
          ServerErrorWellFormed(Eval(inner));
        } else {
          ServerErrorOfApp(Eval(inner));
        }
      case FmtWrap(text, inner) =>
        EveryNestingExactly(inner);
        FromErrorExactly(Eval(inner));
      case _ =>
    }
  }

  lemma NothingIsProper()
    ensures Proper([])
  {
  }

  lemma ServerErrorOfApp(f: Failure)
    requires FirstApp(f).Some?
    ensures ServerError(f).code == FirstApp(f).value.code && ServerError(f).fields == FirstApp(f).value.fields
  {
  }
}
