/** What the error package reads from statuses and from other errors, said of the details and texts themselves. */
module ErrorReading {
  import opened Common
  import opened ErrorFields
  import opened ErrorMetadata
  import opened Errors

  // ---- the details of a status ---------------------------------------------------------------------

  predicate OfPackage(d: Detail) {
    d.ErrorInfo? && d.domain == "zengo.platform/sdk/errx" && d.reason == "APPLICATION_ERROR"
  }

  lemma OfPackageIs(d: Detail)
    ensures OfPackage(d) <==> IsErrxDetail(d)
  {
  }

  /** The detail is one of the package and gives the entry a text. */
  predicate Says(d: Detail, entry: string) {
    && OfPackage(d)
    && entry in d.metadata && d.metadata[entry] != ""
  }

  ghost predicate LastSays(details: seq<Detail>, entry: string, i: nat) {
    i < |details| && Says(details[i], entry) && forall j :: i < j < |details| ==> !Says(details[j], entry)
  }

  ghost predicate NoneSays(details: seq<Detail>, entry: string) {
    forall j :: 0 <= j < |details| ==> !Says(details[j], entry)
  }

  ghost predicate LastErrx(details: seq<Detail>, i: nat) {
    i < |details| && OfPackage(details[i]) && forall j :: i < j < |details| ==> !OfPackage(details[j])
  }

  predicate Debugs(d: Detail) {
    d.DebugInfo? && d.detail != ""
  }

  ghost predicate FirstDebug(details: seq<Detail>, i: nat) {
    i < |details| && Debugs(details[i]) && forall j :: 0 <= j < i ==> !Debugs(details[j])
  }

  lemma {:induction false} LastMessage(e: AppError, details: seq<Detail>, i: nat)
    requires LastSays(details, "message", i)
    ensures ReadDetails(e, details).message == details[i].metadata["message"]
    decreases |details|
  {
    hide Decode;
    var before := details[..|details| - 1];
    if i < |before| {
      LastMessage(e, before, i);
    }
  }

  lemma {:induction false} LastPublicMessage(e: AppError, details: seq<Detail>, i: nat)
    requires LastSays(details, "public_message", i)
    ensures ReadDetails(e, details).publicMessage == details[i].metadata["public_message"]
    decreases |details|
  {
    hide Decode;
    var before := details[..|details| - 1];
    if i < |before| {
      LastPublicMessage(e, before, i);
    }
  }

  lemma {:induction false} NoPublicMessage(e: AppError, details: seq<Detail>)
    requires NoneSays(details, "public_message")
    ensures ReadDetails(e, details).publicMessage == e.publicMessage
    decreases |details|
  {
    hide Decode;
    if details != [] {
      NoPublicMessage(e, details[..|details| - 1]);
    }
  }

  lemma {:induction false} MessageStays(e: AppError, details: seq<Detail>)
    requires NoneSays(details, "message") && (e.message != "" || forall j :: 0 <= j < |details| ==> !Debugs(details[j]))
    ensures ReadDetails(e, details).message == e.message
    decreases |details|
  {
    hide Decode;
    if details != [] {
      MessageStays(e, details[..|details| - 1]);
    }
  }

  lemma {:induction false} FirstDebugIsRead(e: AppError, details: seq<Detail>, i: nat)
    requires NoneSays(details, "message") && e.message == "" && FirstDebug(details, i)
    ensures ReadDetails(e, details).message == details[i].detail
    decreases |details|
  {
    hide Decode;
    var before := details[..|details| - 1];
    if i < |before| {
      FirstDebugIsRead(e, before, i);
    } else {
      MessageStays(e, before);
    }
  }

  lemma {:induction false} LastFields(e: AppError, details: seq<Detail>, i: nat)
    requires LastErrx(details, i)
    ensures ReadDetails(e, details).fields == Decode(details[i].metadata)
    decreases |details|
  {
    hide Decode;
    var before := details[..|details| - 1];
    if i < |before| {
      LastFields(e, before, i);
    }
  }

  lemma {:induction false} NoFields(e: AppError, details: seq<Detail>)
    requires forall j :: 0 <= j < |details| ==> !OfPackage(details[j])
    ensures ReadDetails(e, details).fields == e.fields
    decreases |details|
  {
    hide Decode;
    if details != [] {
      NoFields(e, details[..|details| - 1]);
    }
  }

  /**
   * The fields are the named entries of the last detail of the package, each name once and in the order of the
   * names; without such a detail there are none.
   */
  ghost predicate FieldsRead(st: GrpcStatus, fields: seq<Field>) {
    && Proper(fields) && Strict(Keys(fields))
    && (forall i: nat :: LastErrx(st.details, i) ==>
          forall f :: f in fields <==>
            f.key != "" && "field." + f.key in st.details[i].metadata && f.value == st.details[i].metadata["field." + f.key])
    && ((forall j :: 0 <= j < |st.details| ==> !OfPackage(st.details[j])) ==> fields == [])
  }

  lemma StatusFieldsExactly(st: GrpcStatus, cause: Failure)
    ensures FieldsRead(st, OfStatus(st, cause).fields)
  {
    var start := AppError(NormalizeCode(st.code), st.message, st.message, [], Some(cause));
    OfStatusWellFormed(st, cause);
    assert OfStatus(st, cause).fields == ReadDetails(start, st.details).fields;
    hide OfStatus, Decode, ReadDetails, Strict, Keys;
    NothingIsStrict();
    if !exists i: nat :: LastErrx(st.details, i) {
      NoLastMeansNone(st.details);
    }
    forall i: nat | LastErrx(st.details, i)
      ensures Strict(Keys(OfStatus(st, cause).fields))
      ensures forall f :: f in OfStatus(st, cause).fields <==>
        f.key != "" && "field." + f.key in st.details[i].metadata && f.value == st.details[i].metadata["field." + f.key]
    {
      LastFields(start, st.details, i);
      DecodeProper(st.details[i].metadata);
    }
    if forall j :: 0 <= j < |st.details| ==> !OfPackage(st.details[j]) {
      NoFields(start, st.details);
    }
  }

  lemma NothingIsStrict()
    ensures Strict(Keys([]))
  {
  }

  lemma {:induction false} NoLastMeansNone(details: seq<Detail>)
    requires !exists i: nat :: LastErrx(details, i)
    ensures forall j :: 0 <= j < |details| ==> !OfPackage(details[j])
  {
    if details != [] {
      var n := |details| - 1;
      hide OfPackage;
      assert !LastErrx(details, n);
      forall i: nat
        ensures !LastErrx(details[..n], i)
      {
        assert !LastErrx(details, i);
      }
      NoLastMeansNone(details[..n]);
      forall j | 0 <= j < |details|
        ensures !OfPackage(details[j])
      {
        assert j < n ==> details[..n][j] == details[j];
      }
    }
  }

  /**
   * The code is the status's, or Internal for OK. The internal message is the last that a detail of the package
   * says, else the status's message, else the first text for debugging, else the text of the error it was read
   * from. The public one is the last that such a detail says, else the status's message, else the default.
   */
  ghost predicate MessagesRead(st: GrpcStatus, cause: Failure, e: AppError) {
    && e.code == (if st.code == 0 then 13 else st.code) && e.cause == Some(cause)
    && (forall i: nat :: LastSays(st.details, "public_message", i) ==>
          e.publicMessage == st.details[i].metadata["public_message"])
    && (NoneSays(st.details, "public_message") ==>
          e.publicMessage == if st.message != "" then st.message else DefaultPublicMessage(e.code))
    && (forall i: nat :: LastSays(st.details, "message", i) ==> e.message == st.details[i].metadata["message"])
    && (NoneSays(st.details, "message") && st.message != "" ==> e.message == st.message)
    && (NoneSays(st.details, "message") && st.message == "" ==>
          && (forall i: nat :: FirstDebug(st.details, i) ==> e.message == st.details[i].detail)
          && ((forall j :: 0 <= j < |st.details| ==> !Debugs(st.details[j])) ==>
                e.message == if Text(cause) != "" then Text(cause) else e.publicMessage))
  }

  lemma StatusMessagesExactly(st: GrpcStatus, cause: Failure)
    ensures MessagesRead(st, cause, OfStatus(st, cause))
  {
    var start := AppError(NormalizeCode(st.code), st.message, st.message, [], Some(cause));
    var details := st.details;
    ReadDetailsShape(start, details);
    hide ReadDetails, DefaultPublicMessage, Text;
    forall i: nat | LastSays(details, "public_message", i)
      ensures ReadDetails(start, details).publicMessage == details[i].metadata["public_message"] != ""
    {
      LastPublicMessage(start, details, i);
    }
    forall i: nat | LastSays(details, "message", i)
      ensures ReadDetails(start, details).message == details[i].metadata["message"] != ""
    {
      LastMessage(start, details, i);
    }
    forall i: nat | NoneSays(details, "message") && st.message == "" && FirstDebug(details, i)
      ensures ReadDetails(start, details).message == details[i].detail != ""
    {
      FirstDebugIsRead(start, details, i);
    }
    if NoneSays(details, "public_message") {
      NoPublicMessage(start, details);
    }
    if NoneSays(details, "message") && (st.message != "" || forall j :: 0 <= j < |details| ==> !Debugs(details[j])) {
      MessageStays(start, details);
    }
  }

  // ---- chains of errors ----------------------------------------------------------------------------------

  /** The error f wrapped by fmt.Errorf once for every text, the first text outermost. */
  function WrappedBy(texts: seq<string>, f: Failure): Failure {
    if texts == [] then f else Wrapped(texts[0], WrappedBy(texts[1..], f))
  }

  /** An application error is found in a chain if and only if the chain is that error, wrapped by any texts. */
  lemma FirstAppExactly(f: Failure, e: AppError)
    ensures FirstApp(f) == Some(e) <==> exists texts :: f == WrappedBy(texts, App(e))
  {
    if FirstApp(f) == Some(e) {
      var texts := TextsAbove(f);
    }
    if texts :| f == WrappedBy(texts, App(e)) {
      FoundInside(texts, App(e));
    }
  }

  /** The chain f is that status, wrapped by texts, and reads as st: its message is the outermost text if there is one. */
  ghost predicate IsStatusBelow(f: Failure, texts: seq<string>, status: GrpcStatus, text: string, st: GrpcStatus) {
    && f == WrappedBy(texts, Status(status, text))
    && st == (if texts == [] then status else status.(message := texts[0]))
  }

  /** So is a status. */
  lemma StatusOfExactly(f: Failure, st: GrpcStatus)
    ensures StatusOf(f) == Some(st)
       <==> exists texts, status, text :: IsStatusBelow(f, texts, status, text, st)
  {
    if StatusOf(f) == Some(st) {
      var texts := TextsAbove(f);
    }
    if texts, status, text :| IsStatusBelow(f, texts, status, text, st) {
      FoundInside(texts, Status(status, text));
    }
  }

  lemma {:induction false} TextsAbove(f: Failure) returns (texts: seq<string>)
    ensures FirstApp(f).Some? ==> f == WrappedBy(texts, App(FirstApp(f).value))
    ensures StatusOf(f).Some? ==>
      exists status, text :: IsStatusBelow(f, texts, status, text, StatusOf(f).value)
    decreases f
  {
    match f
    case Wrapped(text, inner) =>
      var above := TextsAbove(inner);
      texts := [text] + above;
      assert texts[1..] == above;
      if StatusOf(f).Some? {
        var status, t :| IsStatusBelow(inner, above, status, t, StatusOf(inner).value);
        assert IsStatusBelow(f, texts, status, t, StatusOf(f).value);
      }
    case Status(status, text) =>
      texts := [];
      assert IsStatusBelow(f, texts, status, text, status);
    case _ =>
      texts := [];
  }

  lemma {:induction false} FoundInside(texts: seq<string>, f: Failure)
    requires !f.Wrapped?
    ensures var g := WrappedBy(texts, f);
      && FirstApp(g) == FirstApp(f)
      && StatusOf(g) == if StatusOf(f).None? || texts == [] then StatusOf(f)
                        else Some(StatusOf(f).value.(message := texts[0]))
  {
    if texts != [] {
      FoundInside(texts[1..], f);
    }
  }

  /** What errors.Unwrap leads to in the end. */
  function Root(f: Failure): Failure {
    match f
    case App(err) => if err.cause.Some? then Root(err.cause.value) else f
    case Wrapped(_, inner) => Root(inner)
    case _ => f
  }

  lemma {:induction false} RootDecides(f: Failure)
    ensures IsCanceled(f) <==> Root(f).Plain? && Root(f).canceled
    ensures IsDeadlineExceeded(f) <==> Root(f).Plain? && Root(f).deadlineExceeded
    decreases f
  {
    match f
    case App(err) =>
      if err.cause.Some? {
        RootDecides(err.cause.value);
      }
    case Wrapped(_, inner) =>
      RootDecides(inner);
    case _ =>
  }

  /**
   * An application error with a cause says its own message first and the cause's text last, with a colon between
   * the two, or only one of them if the other is empty or the same.
   */
  lemma TextExactly(e: AppError)
    ensures e.cause == None ==> Text(App(e)) == if e.message != "" then e.message else e.publicMessage
    ensures e.cause.Some? && e.message != "" ==>
      var text, below := Text(App(e)), Text(e.cause.value);
      && e.message <= text && below == text[|text| - |below|..]
      && if below != "" && below != e.message
         then |text| == |e.message| + 2 + |below| && text[|e.message|] == ':' && text[|e.message| + 1] == ' '
         else text == e.message
    ensures e.cause.Some? && e.message == e.publicMessage == "" ==> Text(App(e)) == Text(e.cause.value)
  {
    if e.cause.Some? {
      var below := Text(e.cause.value);
      var text := e.message + ": " + below;
      assert text[|text| - |below|..] == below;
    }
  }

  /**
   * An error that is neither of the package nor a status becomes Canceled or DeadlineExceeded if that is at the
   * bottom of it, and Internal otherwise, with its text inside and only the default outside.
   */
  lemma ForeignErrorsExactly(f: Failure)
    requires FirstApp(f).None? && StatusOf(f).None?
    ensures Root(f).Plain? && FromError(f).cause == Some(f) && FromError(f).fields == []
    ensures FromError(f).code == if Root(f).canceled then 1 else if Root(f).deadlineExceeded then 4 else 13
    ensures FromError(f).publicMessage == DefaultPublicMessage(FromError(f).code) != ""
    ensures FromError(f).message == if Text(f) != "" then Text(f) else FromError(f).publicMessage
  {
    RootDecides(f);
    ForeignRoot(f);
    hide Text;
  }

  lemma {:induction false} ForeignRoot(f: Failure)
    requires FirstApp(f).None? && StatusOf(f).None?
    ensures Root(f).Plain?
    decreases f
  {
    match f
    case Wrapped(_, inner) => ForeignRoot(inner);
    case _ =>
  }

  /** The codes with a public message of their own. */
  const CLASSIFIED: set<nat> := {1, 3, 4, 5, 6, 7, 8, 14, 16}

  /** The default tells a client apart exactly the codes that are for clients; OK counts as Internal like the rest. */
  lemma DefaultsTellApartExactly(a: nat, b: nat)
    ensures DefaultPublicMessage(a) == DefaultPublicMessage(b) <==> a == b || (a !in CLASSIFIED && b !in CLASSIFIED)
  {
    DefaultsDiffer(a);
    DefaultsDiffer(b);
    hide DefaultPublicMessage;
  }

  /** The length and two letters of a default, which tell it from the others. */
  lemma DefaultsDiffer(a: nat)
    ensures var d := DefaultPublicMessage(a);
      (|d|, d[0], d[9]) ==
        if a == 1 then (16, 'r', 'a')
        else if a == 3 then (15, 'i', 'e')
        else if a == 4 then (15, 'r', 'i')
        else if a == 5 then (18, 'r', 'n')
        else if a == 6 then (23, 'r', 'a')
        else if a == 7 then (17, 'p', 'n')
        else if a == 8 then (23, 'r', 'l')
        else if a == 14 then (31, 's', 'e')
        else if a == 16 then (23, 'a', 'a')
        else (21, 'i', 's')
    ensures a !in CLASSIFIED ==> DefaultPublicMessage(a) == "internal server error"
  {
  }

  // ---- errors made by the package ------------------------------------------------------------------------

  /** New keeps what it is given; OK becomes Internal, and a missing message is the public one. */
  lemma NewExactly(code: nat, message: string, opts: seq<ErrorOption>)
    ensures var e, (publicMessage, fields) := New(code, message, opts), Applied(opts);
      && e.code == (if code == 0 then 13 else code) && e.cause == None
      && e.publicMessage == (if publicMessage != "" then publicMessage else DefaultPublicMessage(code))
      && e.message == (if message != "" then message else e.publicMessage)
      && forall key :: key != "" ==> ValueOf(e.fields, key) == ValueOf(fields, key)
  {
    MergeMeaning([], Applied(opts).1);
    assert forall key :: ValueOf([], key) == None;
    hide Applied, ValueOf, Merge;
  }

  /** Normalize adds the caller's fields to what FromError reads, and changes nothing else. */
  lemma NormalizeAddsFields(f: Failure, opts: seq<ErrorOption>)
    requires WellFormed(FromError(f))
    ensures var n, base := Normalize(f, opts), FromError(f);
      && n == base.(fields := n.fields)
      && forall key :: key != "" ==>
           ValueOf(n.fields, key)
           == if ValueOf(Applied(opts).1, key).Some? then ValueOf(Applied(opts).1, key) else ValueOf(base.fields, key)
  {
    MergeMeaning(FromError(f).fields, Applied(opts).1);
    assert forall key :: ValueOf([], key) == None;
    hide FromError, Merge, Applied, Proper, Text, DefaultPublicMessage;
  }

  /** The interceptor of the server sends on exactly what FromError reads. */
  lemma ServerErrorIsRead(f: Failure)
    requires WellFormed(FromError(f))
    ensures ServerError(f).(cause := None) == FromError(f).(cause := None)
  {
    hide *;
    ServerErrorCases(f);
    if FirstApp(f).None? && StatusOf(f).None? {
      ForeignSaysItself(f);
      RewrapChangesNothing(f, CodeFromError(f), Text(f), []);
    } else if FirstApp(f).None? && !HasErrxDetails(StatusOf(f).value) {
      StatusSaysItself(f);
      RewrapChangesNothing(f, StatusOf(f).value.code, StatusOf(f).value.message, [Public(StatusOf(f).value.message)]);
    }
  }

  lemma ServerErrorCases(f: Failure)
    requires WellFormed(FromError(f))
    ensures FirstApp(f).Some? || (StatusOf(f).Some? && HasErrxDetails(StatusOf(f).value)) ==> ServerError(f) == FromError(f)
    ensures FirstApp(f).None? && StatusOf(f).None? ==> ServerError(f) == Wrap(f, CodeFromError(f), Text(f), [])
    ensures FirstApp(f).None? && StatusOf(f).Some? && !HasErrxDetails(StatusOf(f).value) ==>
      var st := StatusOf(f).value; ServerError(f) == Wrap(f, st.code, st.message, [Public(st.message)])
  {
    hide Wrap, OfStatus, Text, DefaultPublicMessage, Proper;
  }

  lemma ForeignSaysItself(f: Failure)
    requires FirstApp(f).None? && StatusOf(f).None?
    ensures CodeFromError(f) == FromError(f).code && (Text(f) == "" || Text(f) == FromError(f).message)
  {
    hide Text, DefaultPublicMessage;
  }

  lemma StatusSaysItself(f: Failure)
    requires FirstApp(f).None? && StatusOf(f).Some? && !HasErrxDetails(StatusOf(f).value)
    ensures var st, e := StatusOf(f).value, FromError(f);
      && (st.code == 0 || st.code == e.code)
      && (st.message == "" || (st.message == e.message && st.message == e.publicMessage))
  {
    var st := StatusOf(f).value;
    assert FromError(f) == OfStatus(st, f);
    hide *;
    StatusMessagesExactly(st, f);
    PlainStatusRead(st, f, FromError(f));
  }

  lemma PlainStatusRead(st: GrpcStatus, cause: Failure, e: AppError)
    requires MessagesRead(st, cause, e) && !HasErrxDetails(st)
    ensures st.code == 0 || st.code == e.code
    ensures st.message == "" || (st.message == e.message && st.message == e.publicMessage)
  {
    NothingSaid(st, "message");
    NothingSaid(st, "public_message");
    hide NoneSays, LastSays, FirstDebug, Debugs, Text, DefaultPublicMessage, HasErrxDetails;
  }

  lemma NothingSaid(st: GrpcStatus, entry: string)
    requires !HasErrxDetails(st)
    ensures NoneSays(st.details, entry)
  {
    hide IsErrxDetail, OfPackage;
    forall j | 0 <= j < |st.details|
      ensures !Says(st.details[j], entry)
    {
      OfPackageIs(st.details[j]);
    }
  }

  /** Wrapping an error in what it already says, or in nothing, leaves it as it is. */
  lemma RewrapChangesNothing(f: Failure, code: nat, message: string, opts: seq<ErrorOption>)
    requires WellFormed(FromError(f)) && opts in {[], [Public(message)]}
    requires code == 0 || code == FromError(f).code
    requires message == "" || message == FromError(f).message
    requires opts != [] && message != "" ==> message == FromError(f).publicMessage
    ensures Wrap(f, code, message, opts).(cause := None) == FromError(f).(cause := None)
  {
    MergeIdentity(FromError(f).fields);
    assert Applied([]) == ("", []) && Applied([Public(message)]) == (message, []);
    hide FromError, Applied, Merge, Proper, Text, DefaultPublicMessage;
  }
}
