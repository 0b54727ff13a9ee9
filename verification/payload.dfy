/** `SmsPayload` and its compact JSON encoding by kotlinx.serialization.
    The webhook service builds its encoder with only `prettyPrint = false`,
    so the library's `encodeDefaults = false` stays in force: a property
    whose value equals its declared default is left out of the output. Of
    the payload's properties only `type` has a default (`"sms"`), so a
    payload of type `"sms"` is sent without a `"type"` key. */
module Payload {
  import opened Types
  import Json

  const DefaultType: string := "sms"

  datatype SmsPayload = SmsPayload(
    kind: string,          // `type` in the source
    sender: string,
    message: string,
    timestamp: int64,
    device: string,
    osVersion: int32)

  /** Constructing a payload without naming `type`, as every caller does. */
  function NewPayload(sender: string, message: string, timestamp: int64, device: string, osVersion: int32): (p: SmsPayload)
    ensures p.kind == DefaultType
    ensures p.sender == sender && p.message == message && p.timestamp == timestamp
    ensures p.device == device && p.osVersion == osVersion
  {
    SmsPayload(DefaultType, sender, message, timestamp, device, osVersion)
  }

  /** The encoder settings that affect this payload's output. */
  datatype EncoderConfig = EncoderConfig(encodeDefaults: bool)

  /** `Json { prettyPrint = false }`: compact output, library defaults otherwise. */
  const ServiceEncoder: EncoderConfig := EncoderConfig(encodeDefaults := false)

  /** Whether the `type` property is written. */
  predicate EmitsType(cfg: EncoderConfig, p: SmsPayload)
  {
    cfg.encodeDefaults || p.kind != DefaultType
  }

  /** The object members written, in declaration order. */
  function Members(cfg: EncoderConfig, p: SmsPayload): seq<Json.Member>
  {
    (if EmitsType(cfg, p) then [Json.Member("type", Json.JString(p.kind))] else [])
    + [ Json.Member("sender", Json.JString(p.sender)),
        Json.Member("message", Json.JString(p.message)),
        Json.Member("timestamp", Json.JNumber(p.timestamp)),
        Json.Member("device", Json.JString(p.device)),
        Json.Member("osVersion", Json.JNumber(p.osVersion)) ]
  }

  /** `json.encodeToString(payload)`. */
  function Encode(cfg: EncoderConfig, p: SmsPayload): string
  {
    Json.PrintObject(Members(cfg, p))
  }

  /** The keys the payload object carries, in the order they are written. */
  function Keys(ms: seq<Json.Member>): (ks: seq<string>)
    ensures |ks| == |ms|
    ensures forall i :: 0 <= i < |ms| ==> ks[i] == ms[i].key
  {
    if ms == [] then [] else [ms[0].key] + Keys(ms[1..])
  }

  /** Reads the five non-default members back, `type` already known. */
  function FromFields(kind: string, ms: seq<Json.Member>): Option<SmsPayload>
  {
    if |ms| != 5 then None
    else if ms[0].key != "sender" || !ms[0].value.JString? then None
    else if ms[1].key != "message" || !ms[1].value.JString? then None
    else if ms[2].key != "timestamp" || !ms[2].value.JNumber? then None
    else if ms[3].key != "device" || !ms[3].value.JString? then None
    else if ms[4].key != "osVersion" || !ms[4].value.JNumber? then None
    else
      var ts, os := ms[2].value.number, ms[4].value.number;
      if !(MinInt64 <= ts <= MaxInt64 && MinInt32 <= os <= MaxInt32) then None
      else Some(SmsPayload(kind, ms[0].value.text, ms[1].value.text, ts, ms[3].value.text, os))
  }

  /** A decoder for the payload object: a missing `type` takes its default. */
  function Decode(body: string): Option<SmsPayload>
  {
    var ms :- Json.ParseObject(body);
    if ms != [] && ms[0].key == "type" then
      if ms[0].value.JString? then FromFields(ms[0].value.text, ms[1..]) else None
    else FromFields(DefaultType, ms)
  }

  /** The five members written after the optional `type`. */
  function Fields(p: SmsPayload): seq<Json.Member>
  {
    [ Json.Member("sender", Json.JString(p.sender)),
      Json.Member("message", Json.JString(p.message)),
      Json.Member("timestamp", Json.JNumber(p.timestamp)),
      Json.Member("device", Json.JString(p.device)),
      Json.Member("osVersion", Json.JNumber(p.osVersion)) ]
  }

  lemma MembersShape(cfg: EncoderConfig, p: SmsPayload)
    ensures Members(cfg, p) == (if EmitsType(cfg, p) then [Json.Member("type", Json.JString(p.kind))] else []) + Fields(p)
  {
  }

  lemma FieldsRoundTrip(kind: string, p: SmsPayload)
    ensures FromFields(kind, Fields(p)) == Some(p.(kind := kind))
  {
  }

  lemma DecodeParsed(body: string, ms: seq<Json.Member>)
    requires Json.ParseObject(body) == Some(ms)
    ensures ms != [] && ms[0].key == "type" && ms[0].value.JString? ==> Decode(body) == FromFields(ms[0].value.text, ms[1..])
    ensures (ms == [] || ms[0].key != "type") ==> Decode(body) == FromFields(DefaultType, ms)
  {
  }

  /** Decoding the body gives the payload back under either encoder setting;
      with defaults omitted, the decoder's default restores `type`. */
  lemma RoundTrip(cfg: EncoderConfig, p: SmsPayload)
    ensures Decode(Encode(cfg, p)) == Some(p)
  {
    var ms := Members(cfg, p);
    var fs := Fields(p);
    Json.ObjectRoundTrip(ms);
    DecodeParsed(Encode(cfg, p), ms);
    MembersShape(cfg, p);
    if EmitsType(cfg, p) {
      assert ms[0].key == "type" && ms[1..] == fs;
      FieldsRoundTrip(p.kind, p);
    } else {
      assert ms == fs && ms[0].key == "sender";
      FieldsRoundTrip(DefaultType, p);
    }
  }

  /** The object's keys, read back by the parser, are the declared property
      names in declaration order, `type` first exactly when it is written. */
  lemma EncodedKeys(cfg: EncoderConfig, p: SmsPayload)
    ensures Json.ParseObject(Encode(cfg, p)).Some?
    ensures Keys(Json.ParseObject(Encode(cfg, p)).value) ==
      (if EmitsType(cfg, p) then ["type"] else []) + ["sender", "message", "timestamp", "device", "osVersion"]
  {
    Json.ObjectRoundTrip(Members(cfg, p));
    MemberKeys(cfg, p);
  }

  lemma MemberKeys(cfg: EncoderConfig, p: SmsPayload)
    ensures Keys(Members(cfg, p)) ==
      (if EmitsType(cfg, p) then ["type"] else []) + ["sender", "message", "timestamp", "device", "osVersion"]
  {
    var rest := [ Json.Member("sender", Json.JString(p.sender)),
                  Json.Member("message", Json.JString(p.message)),
                  Json.Member("timestamp", Json.JNumber(p.timestamp)),
                  Json.Member("device", Json.JString(p.device)),
                  Json.Member("osVersion", Json.JNumber(p.osVersion)) ];
    var names := ["sender", "message", "timestamp", "device", "osVersion"];
    assert Keys(rest) == names by {
      assert forall i :: 0 <= i < 5 ==> Keys(rest)[i] == rest[i].key == names[i];
    }
    if EmitsType(cfg, p) {
      var ms := [Json.Member("type", Json.JString(p.kind))] + rest;
      assert Members(cfg, p) == ms;
      assert ms[1..] == rest;
    } else {
      assert Members(cfg, p) == rest;
    }
  }

  /** With the service's encoder a `"type"` key is present if and only if the
      payload's type differs from the default `"sms"`. */
  lemma ServiceTypeKey(p: SmsPayload)
    ensures Json.ParseObject(Encode(ServiceEncoder, p)).Some?
    ensures "type" in Keys(Json.ParseObject(Encode(ServiceEncoder, p)).value) <==> p.kind != DefaultType
  {
    EncodedKeys(ServiceEncoder, p);
  }

  lemma MemberSpace(cfg: EncoderConfig, p: SmsPayload, i: int)
    requires 0 <= i < |Members(cfg, p)| && Json.HasSpace(Members(cfg, p)[i])
    ensures ' ' in p.sender || ' ' in p.message || ' ' in p.device || (EmitsType(cfg, p) && ' ' in p.kind)
  {
    var ms := Members(cfg, p);
    var j := if EmitsType(cfg, p) then i - 1 else i;
    var m := ms[i];
    if j == -1 {
      assert m == Json.Member("type", Json.JString(p.kind));
      assert ' ' !in "type";
    } else if j == 0 {
      assert m == Json.Member("sender", Json.JString(p.sender));
      assert ' ' !in "sender";
    } else if j == 1 {
      assert m == Json.Member("message", Json.JString(p.message));
      assert ' ' !in "message";
    } else if j == 3 {
      assert m == Json.Member("device", Json.JString(p.device));
      assert ' ' !in "device";
    } else if j == 2 || j == 4 {
      assert false;
    }
  }

  /** The body is compact: no newline, carriage return, tab or other control
      character, and a space only where one of the texts holds a space. */
  lemma Compact(cfg: EncoderConfig, p: SmsPayload)
    ensures Json.NoControl(Encode(cfg, p))
    ensures ' ' in Encode(cfg, p) ==>
      ' ' in p.sender || ' ' in p.message || ' ' in p.device || (EmitsType(cfg, p) && ' ' in p.kind)
  {
    var ms := Members(cfg, p);
    Json.ObjectCompact(ms);
    if ' ' in Encode(cfg, p) {
      var i :| 0 <= i < |ms| && Json.HasSpace(ms[i]);
      MemberSpace(cfg, p, i);
    }
  }

  /** Equal bodies come only from equal payloads (for a fixed encoder). */
  lemma EncodeInjective(cfg: EncoderConfig, p: SmsPayload, q: SmsPayload)
    requires Encode(cfg, p) == Encode(cfg, q)
    ensures p == q
  {
    RoundTrip(cfg, p);
    RoundTrip(cfg, q);
  }
}
