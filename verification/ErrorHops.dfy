/** What of an error crosses the wire, and what survives any number of services it passes through. */
module ErrorHops {
  import opened Common
  import opened ErrorFields
  import opened ErrorMetadata
  import opened Errors

  /** What a client may see of an error. */
  ghost function Face(f: Failure): (nat, string) {
    (FromError(f).code, FromError(f).publicMessage)
  }

  /** The status the gRPC server sends for a handler's error that went through the server interceptor. */
  ghost function Wire(f: Failure): GrpcStatus {
    GRPCStatus(ServerError(f))
  }

  /** A face as the wire shows it: never OK, never silent. */
  function Shown(face: (nat, string)): (nat, string) {
    (NormalizeCode(face.0), if face.1 == "" then DefaultPublicMessage(face.0) else face.1)
  }

  /** The face of a status, without any earlier peer's metadata, is its code and message. */
  lemma FaceOfPlainStatus(st: GrpcStatus, cause: Failure)
    requires !HasErrxDetails(st)
    ensures (OfStatus(st, cause).code, OfStatus(st, cause).publicMessage) == Shown((st.code, st.message))
  {
    var start := AppError(NormalizeCode(st.code), st.message, st.message, [], Some(cause));
    ReadDetailsShape(start, st.details);
  }

  /** The server interceptor sends the face of the error. */
  lemma WireShowsFace(f: Failure)
    ensures (Wire(f).code, Wire(f).message) == Shown(Face(f))
    ensures Wire(f).details == [ErrorInfo(ERROR_DOMAIN, ERROR_REASON, map[])]
  {
    if FirstApp(f).None? && StatusOf(f).Some? {
      var st := StatusOf(f).value;
      OfStatusWellFormed(st, f);
      if !HasErrxDetails(st) {
        FaceOfPlainStatus(st, f);
        hide OfStatus, ReadDetails, Merge;
        assert Applied([Public(st.message)]).0 == st.message;
      }
    }
  }

  /**
   * Nothing else leaks: two errors are the same on the wire exactly when they show the same code and
   * public message, whatever their internal messages, fields and causes.
   */
  lemma WireIsTheShownFaceExactly(a: Failure, b: Failure)
    ensures Wire(a) == Wire(b) <==> Shown(Face(a)) == Shown(Face(b))
  {
    hide Wire, Face, Shown;
    WireShowsFace(a);
    WireShowsFace(b);
  }

  // ---- hops ---------------------------------------------------------------------------------------------------------

  /** What happens to an error on its way: it crosses the wire, is decoded, or is wrapped without being reclassified. */
  datatype Relay =
    | Cross(text: string)                              // server interceptor, wire, and the client's status error
    | Intercept                                        // client interceptor
    | AddFields(opts: seq<ErrorOption>)                // Normalize
    | Rewrap(message: string, list: seq<Field>)        // Wrap with codes.OK and no Public option
    | Annotate(text: string)                           // fmt.Errorf with %w

  ghost function Relayed(f: Failure, r: Relay): Failure {
    match r
    case Cross(text) => Status(Wire(f), text)
    case Intercept => App(Normalize(f, []))
    case AddFields(opts) => App(Normalize(f, opts))
    case Rewrap(message, list) => App(Wrap(f, OK, message, [Fields(list)]))
    case Annotate(text) => Wrapped(text, f)
  }

  ghost function RelayedAll(f: Failure, relays: seq<Relay>): Failure
    decreases |relays|
  {
    if relays == [] then f else RelayedAll(Relayed(f, relays[0]), relays[1..])
  }

  /** A detail of the status gives its own public message. */
  predicate CarriesPublic(st: GrpcStatus) {
    exists d :: d in st.details && SuppliesPublic(d)
  }

  predicate SuppliesPublic(d: Detail) {
    IsErrxDetail(d) && ValueOr(d.metadata, METADATA_PUBLIC_MESSAGE, "") != ""
  }

  /**
   * Annotating is harmless on an application error, where there is no status, where the status carries its
   * own public message, and where the annotation shows as the status's message does.
   */
  predicate HarmlessAnnotation(f: Failure, text: string) {
    || FirstApp(f).Some?
    || StatusOf(f).None?
    || CarriesPublic(StatusOf(f).value)
    || Shown((StatusOf(f).value.code, text)) == Shown((StatusOf(f).value.code, StatusOf(f).value.message))
  }

  predicate Harmless(f: Failure, r: Relay) {
    r.Annotate? ==> HarmlessAnnotation(f, r.text)
  }

  ghost predicate AllHarmless(f: Failure, relays: seq<Relay>)
    decreases |relays|
  {
    relays != [] ==> Harmless(f, relays[0]) && AllHarmless(Relayed(f, relays[0]), relays[1..])
  }

  lemma FaceOfWire(f: Failure, text: string)
    ensures Face(Status(Wire(f), text)) == Shown(Face(f))
  {
    WireShowsFace(f);
    hide Wire, Shown, ReadDetails;
    var st := Wire(f);
    var info := ErrorInfo(ERROR_DOMAIN, ERROR_REASON, map[]);
    WireReads(st, Status(st, text), info);
    ShownIsShown(Face(f));
  }

  /** An ErrorInfo without metadata leaves the code and the message of the status. */
  lemma WireReads(st: GrpcStatus, cause: Failure, info: Detail)
    requires st.details == [info] && info.ErrorInfo? && info.metadata == map[]
    ensures (OfStatus(st, cause).code, OfStatus(st, cause).publicMessage) == Shown((st.code, st.message))
  {
    var start := AppError(NormalizeCode(st.code), st.message, st.message, [], Some(cause));
    assert ReadDetails(start, st.details) == ReadDetail(ReadDetails(start, []), info) by {
      assert st.details[..0] == [];
    }
    assert ReadDetails(start, []) == start;
  }

  lemma ShownIsShown(face: (nat, string))
    ensures Shown(Shown(face)) == Shown(face)
    ensures Shown(face) == face <==> face.0 != OK && face.1 != ""
  {
  }

  /** Crossing the wire keeps the face exactly when there is a code and a public message to keep. */
  lemma CrossingKeepsExactly(f: Failure, text: string)
    ensures Face(Relayed(f, Cross(text))) == Face(f) <==> Face(f).0 != OK && Face(f).1 != ""
  {
    hide Shown, Face, Wire;
    FaceOfWire(f, text);
    ShownIsShown(Face(f));
  }

  // ---- annotating ------------------------------------------------------------------------------------------------

  /** A public message from the details hides the message of the status; without one, the details do not touch it. */
  lemma {:induction false} PublicOfDetails(e: AppError, e': AppError, details: seq<Detail>)
    ensures (exists d :: d in details && SuppliesPublic(d)) ==>
      ReadDetails(e, details).publicMessage == ReadDetails(e', details).publicMessage != ""
    ensures !(exists d :: d in details && SuppliesPublic(d)) ==> ReadDetails(e, details).publicMessage == e.publicMessage
    decreases |details|
  {
    if details != [] {
      hide Decode;
      var before, last := details[..|details| - 1], details[|details| - 1];
      assert details == before + [last];
      assert (exists d :: d in details && SuppliesPublic(d))
        <==> (exists d :: d in before && SuppliesPublic(d)) || SuppliesPublic(last) by {
        assert forall d :: d in details <==> d in before || d == last;
      }
      PublicOfDetails(e, e', before);
      PublicOfDetails(e', e, before);
    }
  }

  lemma FaceOfStatusExactly(st: GrpcStatus, cause: Failure)
    ensures OfStatus(st, cause).code == NormalizeCode(st.code)
    ensures !CarriesPublic(st) ==> (OfStatus(st, cause).code, OfStatus(st, cause).publicMessage) == Shown((st.code, st.message))
  {
    var start := AppError(NormalizeCode(st.code), st.message, st.message, [], Some(cause));
    ReadDetailsShape(start, st.details);
    PublicOfDetails(start, start, st.details);
    hide ReadDetails;
  }

  /** With a public message of its own, a status shows the same whatever its message is. */
  lemma CarriedPublicStays(st: GrpcStatus, text: string, c1: Failure, c2: Failure)
    requires CarriesPublic(st)
    ensures OfStatus(st, c1).publicMessage == OfStatus(st.(message := text), c2).publicMessage
  {
    var start1 := AppError(NormalizeCode(st.code), st.message, st.message, [], Some(c1));
    var start2 := AppError(NormalizeCode(st.code), text, text, [], Some(c2));
    PublicOfDetails(start1, start2, st.details);
    ReadDetailsShape(start1, st.details);
    ReadDetailsShape(start2, st.details);
    hide ReadDetails;
  }

  /** Annotating keeps what is shown exactly when it is harmless. */
  lemma AnnotationExactly(f: Failure, text: string)
    ensures Shown(Face(Relayed(f, Annotate(text)))) == Shown(Face(f)) <==> HarmlessAnnotation(f, text)
  {
    var g := Wrapped(text, f);
    if FirstApp(f).None? && StatusOf(f).Some? {
      var st := StatusOf(f).value;
      assert StatusOf(g) == Some(st.(message := text)) && FirstApp(g) == None;
      assert Face(f) == (OfStatus(st, f).code, OfStatus(st, f).publicMessage);
      assert Face(g) == (OfStatus(st.(message := text), g).code, OfStatus(st.(message := text), g).publicMessage);
      hide OfStatus;
      FaceOfStatusExactly(st, f);
      FaceOfStatusExactly(st.(message := text), g);
      if CarriesPublic(st) {
        CarriedPublicStays(st, text, f, g);
      }
      ShownIsShown((st.code, st.message));
      ShownIsShown((st.code, text));
    }
  }

  // ---- any number of hops -------------------------------------------------------------------------------------------

  lemma FaceOfApp(e: AppError)
    ensures Face(App(e)) == (e.code, e.publicMessage)
  {
  }

  lemma RewrapKeepsShown(f: Failure, message: string, list: seq<Field>)
    ensures Shown(Face(App(Wrap(f, OK, message, [Fields(list)])))) == Shown(Face(f))
  {
    assert Applied([Fields(list)]).0 == "" by {
      assert [Fields(list)][..0] == [];
    }
    hide FromError, Merge, Applied;
    FaceOfApp(Wrap(f, OK, message, [Fields(list)]));
  }

  lemma NormalizeKeepsShown(f: Failure, opts: seq<ErrorOption>)
    ensures Shown(Face(App(Normalize(f, opts)))) == Shown(Face(f))
  {
    hide FromError, Merge, Applied;
    FaceOfApp(Normalize(f, opts));
  }

  /** One step keeps what is shown exactly when it is no harmful annotation; this holds of every error. */
  lemma RelayExactly(f: Failure, r: Relay)
    ensures Shown(Face(Relayed(f, r))) == Shown(Face(f)) <==> Harmless(f, r)
  {
    hide Face, Shown;
    match r {
      case Cross(text) =>
        FaceOfWire(f, text);
        ShownIsShown(Face(f));
      case Intercept =>
        NormalizeKeepsShown(f, []);
      case AddFields(opts) =>
        NormalizeKeepsShown(f, opts);
      case Rewrap(message, list) =>
        RewrapKeepsShown(f, message, list);
      case Annotate(text) =>
        AnnotationExactly(f, text);
    }
  }

  ghost predicate ShowsTheSame(f: Failure, relays: seq<Relay>, n: nat)
    requires n <= |relays|
  {
    Shown(Face(RelayedAll(f, relays[..n]))) == Shown(Face(f))
  }

  lemma FirstHop(f: Failure, relays: seq<Relay>, n: nat)
    requires 0 < n <= |relays|
    ensures RelayedAll(f, relays[..n]) == RelayedAll(Relayed(f, relays[0]), relays[1..][..n - 1])
  {
    assert relays[..n][1..] == relays[1..][..n - 1];
  }

  /**
   * Any number of hops, in any order, shows every service on the way the same code and public message, if
   * and only if no annotation on the way is harmful.
   */
  lemma {:induction false} HopsExactly(f: Failure, relays: seq<Relay>)
    ensures (forall n: nat :: n <= |relays| ==> ShowsTheSame(f, relays, n)) <==> AllHarmless(f, relays)
    decreases |relays|
  {
    hide Face, Shown, Relayed, Harmless;
    assert relays[..0] == [];
    if relays != [] {
      var next, rest := Relayed(f, relays[0]), relays[1..];
      RelayExactly(f, relays[0]);
      HopsExactly(next, rest);
      FirstHop(f, relays, 1);
      assert rest[..0] == [];
      hide RelayedAll;
      assert Shown(Face(next)) == Shown(Face(f)) <==> ShowsTheSame(f, relays, 1) by {
        FirstHop(f, relays, 1);
        NoHop(next);
      }
      forall n: nat | n <= |rest|
        ensures Shown(Face(next)) == Shown(Face(f)) ==> (ShowsTheSame(next, rest, n) <==> ShowsTheSame(f, relays, n + 1))
      {
        FirstHop(f, relays, n + 1);
      }
      NoHop(f);
      if AllHarmless(f, relays) {
        forall n: nat | n <= |relays|
          ensures ShowsTheSame(f, relays, n)
        {
          if n > 0 {
            assert ShowsTheSame(next, rest, n - 1);
          }
        }
      }
      if forall n: nat :: n <= |relays| ==> ShowsTheSame(f, relays, n) {
        assert ShowsTheSame(f, relays, 1);
        forall n: nat | n <= |rest|
          ensures ShowsTheSame(next, rest, n)
        {
          assert ShowsTheSame(f, relays, n + 1);
        }
      }
    }
  }

  lemma NoHop(f: Failure)
    ensures RelayedAll(f, []) == f
  {
  }

  /** So the wire carries one and the same status at every hop, under the same condition. */
  lemma StatusIsAFixpointExactly(f: Failure, relays: seq<Relay>)
    ensures (forall n: nat :: n <= |relays| ==> Wire(RelayedAll(f, relays[..n])) == Wire(f)) <==> AllHarmless(f, relays)
  {
    hide *;
    HopsExactly(f, relays);
    forall n: nat | n <= |relays|
      ensures Wire(RelayedAll(f, relays[..n])) == Wire(f) <==> ShowsTheSame(f, relays, n)
    {
      WireIsTheShownFaceExactly(RelayedAll(f, relays[..n]), f);
      ShowsMeans(f, relays, n);
    }
  }

  lemma ShowsMeans(f: Failure, relays: seq<Relay>, n: nat)
    requires n <= |relays|
    ensures ShowsTheSame(f, relays, n) <==> Shown(Face(RelayedAll(f, relays[..n]))) == Shown(Face(f))
  {
  }

  /** An error of the package shows its own code and public message, so these are what no hop changes. */
  lemma NestingShowsItself(t: Term)
    ensures Shown(Face(Eval(t))) == Face(Eval(t)) <==> ZerosAreWrapped(t)
  {
    hide Eval, FromError;
    EveryNestingExactly(t);
    ShownIsShown(Face(Eval(t)));
  }

  /** An annotated status without a public message of its own makes the whole annotation public. */
  lemma AnnotatedStatusIsPublic(st: GrpcStatus, text: string, annotation: string)
    requires !CarriesPublic(st) && annotation != ""
    ensures Face(Relayed(Status(st, text), Annotate(annotation))).1 == annotation
  {
    var annotated := st.(message := annotation);
    var f := Wrapped(annotation, Status(st, text));
    assert forall d :: d in annotated.details ==> !SuppliesPublic(d);
    assert FirstApp(Status(st, text)) == None && StatusOf(Status(st, text)) == Some(st);
    assert FirstApp(f) == None && StatusOf(f) == Some(annotated);
    FaceOfStatusExactly(annotated, f);
  }

  /** Hops alone get there: a status that has just crossed the wire carries no public message of its own. */
  lemma AnnotatingWhatCrossedIsPublic(f: Failure, text: string, annotation: string)
    requires annotation != ""
    ensures Face(Relayed(Relayed(f, Cross(text)), Annotate(annotation))).1 == annotation
  {
    WireShowsFace(f);
    hide Wire, Face;
    assert forall d :: d in Wire(f).details ==> !SuppliesPublic(d);
    AnnotatedStatusIsPublic(Wire(f), text, annotation);
  }

  /** A zero Error has no code and no messages of its own; the wire and Wrap give it some, FromError does not. */
  lemma ZeroErrorFace()
    ensures var zero := App(AppError(OK, "", "", [], None));
      && Face(zero) == (OK, "") && !WellFormed(FromError(zero))
      && Shown(Face(zero)) == (INTERNAL, "internal server error")
      && WellFormed(Wrap(zero, OK, "", []))
  {
    var zero := App(AppError(OK, "", "", [], None));
    WrapExactly(zero, OK, "", []);
  }
}
