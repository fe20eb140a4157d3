// The event envelope and the checks that gate `publish`.
module Envelopes {
  import opened Common
  import Json

  // A UUID, seen as a number; the protocols only compare ids.
  type EventId = nat

  datatype EventEnvelope = EventEnvelope(
    id: EventId,
    eventType: string,
    source: string,
    schemaVersion: nat,
    payload: Json.Value)

  datatype EnvelopeError = EmptyEventType | EmptySource | InvalidSchemaVersion

  // The characters Rust's `trim` removes (Unicode White_Space).
  predicate IsSpace(c: char) {
    || '\U{9}' <= c <= '\U{D}'
    || c == ' ' || c == '\U{85}' || c == '\U{A0}' || c == '\U{1680}'
    || '\U{2000}' <= c <= '\U{200A}'
    || c == '\U{2028}' || c == '\U{2029}' || c == '\U{202F}' || c == '\U{205F}' || c == '\U{3000}'
  }

  predicate Blank(text: string) {
    forall c :: c in text ==> IsSpace(c)
  }

  function Validate(e: EventEnvelope): Result<Unit, EnvelopeError> {
    if Blank(e.eventType) then Err(EmptyEventType)
    else if Blank(e.source) then Err(EmptySource)
    else if e.schemaVersion == 0 then Err(InvalidSchemaVersion)
    else Ok(Unit)
  }

  predicate Valid(e: EventEnvelope) {
    Validate(e).Ok?
  }

  // ----- Blank means empty once trimmed -----

  function TrimStart(text: string): string {
    if text != [] && IsSpace(text[0]) then TrimStart(text[1..]) else text
  }

  function TrimEnd(text: string): string {
    if text != [] && IsSpace(text[|text| - 1]) then TrimEnd(text[..|text| - 1]) else text
  }

  // The 25 characters of White_Space.
  lemma WhiteSpace(c: char)
    ensures IsSpace(c) <==>
      c in "\U{9}\U{A}\U{B}\U{C}\U{D} \U{85}\U{A0}\U{1680}\U{2000}\U{2001}\U{2002}\U{2003}\U{2004}\U{2005}" +
           "\U{2006}\U{2007}\U{2008}\U{2009}\U{200A}\U{2028}\U{2029}\U{202F}\U{205F}\U{3000}"
  {
  }

  lemma {:induction false} TrimStartExactly(text: string)
    ensures Blank(text) <==> TrimStart(text) == []
    ensures TrimStart(text) != [] ==> !IsSpace(TrimStart(text)[0])
  {
    if text != [] && IsSpace(text[0]) {
      TrimStartExactly(text[1..]);
      assert text == [text[0]] + text[1..];
    }
  }

  lemma {:induction false} TrimEndKeepsText(text: string)
    requires text != [] && !IsSpace(text[0])
    ensures TrimEnd(text) != []
  {
    if IsSpace(text[|text| - 1]) {
      TrimEndKeepsText(text[..|text| - 1]);
    }
  }

  // The checks in their order: a type and a source that are empty once trimmed, version 0.
  lemma ValidateExactly(e: EventEnvelope)
    ensures Validate(e) ==
      if TrimEnd(TrimStart(e.eventType)) == "" then Err(EmptyEventType)
      else if TrimEnd(TrimStart(e.source)) == "" then Err(EmptySource)
      else if e.schemaVersion < 1 then Err(InvalidSchemaVersion)
      else Ok(Unit)
  {
    forall text: string ensures Blank(text) <==> TrimEnd(TrimStart(text)) == "" {
      TrimStartExactly(text);
      if TrimStart(text) != [] {
        TrimEndKeepsText(TrimStart(text));
      }
    }
  }

  // What a bus answers to `publish`: an acknowledgement or the envelope's fault.
  datatype Ack = Ack(eventId: EventId, duplicate: bool)

  type PublishResult = Result<Ack, EnvelopeError>
}
