/** The client's side of the JSON-RPC handshake. `Session` is the value of the object. */
module RpcClientSession {
  import opened AxtpTypes
  import opened Json

  /** `observedVersion` keeps the peer's version as it came; it is diagnostic only. */
  datatype Session = Session(helloAccepted: bool, observedVersion: Option<Json>, sid: string)

  const NEW_SESSION: Session := Session(false, None, "")

  predicate IsHello(j: Json) {
    IntOr(j, "op", -1) == Ok(HELLO) && Find(j, "d").Some? && Find(j, "d").value.Object?
  }

  /** The non-empty sid of an IDENTIFIED. */
  function IdentifiedSid(j: Json): Option<string> {
    var sid := Find(j, "sid");
    if IntOr(j, "op", -1) == Ok(IDENTIFIED) && sid.Some? && sid.value.Str? && sid.value.s != ""
    then Some(sid.value.s)
    else None
  }

  function IdentifyMessage(seed: uint32, eventMasks: string): Json {
    Object(map["sid" := Str(""), "op" := Unsigned(IDENTIFY),
               "d" := Object(map["randomSeed" := Unsigned(seed), "eventMasks" := Str(eventMasks)])])
  }

  function ReidentifyMessage(sid: string, eventMasks: string): Json {
    Object(map["sid" := Str(sid), "op" := Unsigned(REIDENTIFY),
               "d" := Object(if eventMasks == "" then map[] else map["eventMasks" := Str(eventMasks)])])
  }

  /** What both messages say, read the way the peer reads them. */
  lemma MessagesSay(seed: uint32, masks: string, sid: string)
    ensures var i := IdentifyMessage(seed, masks);
            && Find(i, "op") == Some(Unsigned(IDENTIFY)) && Find(i, "sid") == Some(Str("")) && Find(i, "d").Some?
            && Find(Find(i, "d").value, "randomSeed") == Some(Unsigned(seed))
            && Find(Find(i, "d").value, "eventMasks") == Some(Str(masks))
    ensures var r := ReidentifyMessage(sid, masks);
            && Find(r, "op") == Some(Unsigned(REIDENTIFY)) && Find(r, "sid") == Some(Str(sid)) && Find(r, "d").Some?
            && Find(Find(r, "d").value, "randomSeed") == None
            && Find(Find(r, "d").value, "eventMasks") == if |masks| > 0 then Some(Str(masks)) else None
  {
  }

  function AfterHello(s: Session, hello: Json): Session {
    if IsHello(hello)
    then s.(helloAccepted := true, observedVersion := Find(Find(hello, "d").value, "axtpVersion"))
    else s
  }

  function AfterIdentified(s: Session, identified: Json): Session {
    if s.helloAccepted && IdentifiedSid(identified).Some? then s.(sid := IdentifiedSid(identified).value) else s
  }

  /** A HELLO whose operation reads zero and whose body is an object is accepted, with the version as it came. */
  lemma HelloDecides(s: Session, j: Json)
    ensures Find(j, "op") == Some(Unsigned(0)) && Find(j, "d").Some? && Find(j, "d").value.Object? ==>
              AfterHello(s, j) == Session(true, Find(Find(j, "d").value, "axtpVersion"), s.sid)
    ensures Find(j, "d").None? || !Find(j, "d").value.Object? ==> AfterHello(s, j) == s
    ensures j.Object? && (Find(j, "op").None? || exists n: uint16 :: n > 0 && Find(j, "op") == Some(Unsigned(n))) ==>
              AfterHello(s, j) == s
  {
  }

  /** An IDENTIFIED gives the session its sid: only after a HELLO, and only one that is text and not empty. */
  lemma IdentifiedDecides(s: Session, j: Json, sid: string)
    ensures s.helloAccepted && sid != "" && Find(j, "op") == Some(Unsigned(3)) && Find(j, "sid") == Some(Str(sid)) ==>
              AfterIdentified(s, j) == s.(sid := sid)
    ensures !s.helloAccepted ==> AfterIdentified(s, j) == s
    ensures Find(j, "sid").None? || !Find(j, "sid").value.Str? || Find(j, "sid") == Some(Str("")) ==>
              AfterIdentified(s, j) == s
    ensures j.Object? && (Find(j, "op").None? || exists n: uint16 :: n != 3 && Find(j, "op") == Some(Unsigned(n))) ==>
              AfterIdentified(s, j) == s
  {
  }

  class RpcClientSession {
    var helloAccepted: bool
    var observedVersion: Option<Json>
    var sid: string

    function Value(): Session
      reads this
    {
      Session(helloAccepted, observedVersion, sid)
    }

    constructor ()
      ensures Value() == NEW_SESSION
    {
      helloAccepted, observedVersion, sid := false, None, "";
    }

    /** Answers HELLO with IDENTIFY; a message of another shape changes nothing. */
    method AcceptHello(hello: Json, seed: uint32, eventMasks: string) returns (identify: Checked<Json>)
      modifies this
      ensures Value() == AfterHello(old(Value()), hello)
      ensures identify == if IsHello(hello) then Ok(IdentifyMessage(seed, eventMasks)) else Throws
    {
      var d := Find(hello, "d");
      if IntOr(hello, "op", -1) != Ok(HELLO) || d.None? || !d.value.Object? {
        return Throws;
      }
      observedVersion := None;
      var version := Find(d.value, "axtpVersion");
      if version.Some? {
        observedVersion := version;
      }
      helloAccepted := true;
      return Ok(IdentifyMessage(seed, eventMasks));
    }

    method AcceptIdentified(identified: Json) returns (accepted: bool)
      modifies this`sid
      ensures Value() == AfterIdentified(old(Value()), identified)
      ensures accepted <==> helloAccepted && IdentifiedSid(identified).Some?
    {
      var field := Find(identified, "sid");
      if !helloAccepted || IntOr(identified, "op", -1) != Ok(IDENTIFIED) ||
         field.None? || !field.value.Str? || field.value.s == "" {
        return false;
      }
      sid := field.value.s;
      return true;
    }

    /**
     Asks a peer to take the session up again; only an identified session has a sid to name. The step
     ClientReidentifies of JsonRpcHandshake sends this message.
     */
    method MakeReidentify(eventMasks: string) returns (message: Checked<Json>)
      ensures message.Throws? <==> sid == ""
      ensures message.Ok? ==>
                && message.value == ReidentifyMessage(sid, eventMasks)
                && IntOr(message.value, "op", -1) == Ok(REIDENTIFY) && Find(message.value, "sid") == Some(Str(sid))
    {
      if sid == "" {
        return Throws;
      }
      return Ok(ReidentifyMessage(sid, eventMasks));
    }
  }
}
