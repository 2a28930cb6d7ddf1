/**
 * The rules controller (src/controllers/rules.rs): it decodes a submitted
 * rule, stores it base64-encoded in the rules table, tells the service's
 * proxy task about it over the service's channel, deletes rules, and lists
 * the configured services.
 */
module RulesController {
  import opened Wrappers
  import Http
  import Hex
  import Base64
  import Utf8
  import RuleModel

  const InvalidHex := "Invalid hex string."
  const InvalidBase64 := "Invalid base64 string."
  const InvalidType := "Invalid rule type."
  const ServiceNotFound := "Service not found"
  const RuleNotFound := "Rule not found."
  const DeletedOk := "Ok."

  /**
   * The bytes of a submitted rule: the UTF-8 bytes of the text, or the text
   * decoded from hex (either case) or from padded standard base64; otherwise
   * the message of the 400 answer.
   */
  function DecodeRuleText(text: string, ruleType: Http.RuleType): (r: Result<seq<byte>, string>)
    ensures ruleType.Ascii? ==> r == Ok(Utf8.Encode(text))
    ensures ruleType.Hex? ==>
      r == if Hex.Decode(text).Some? then Ok(Hex.Decode(text).value) else Err(InvalidHex)
    ensures ruleType.Base64? ==>
      r == if Base64.Decode(text).Some? then Ok(Base64.Decode(text).value) else Err(InvalidBase64)
    ensures ruleType.Unknown? ==> r == Err(InvalidType)
    ensures r.Err? ==> r.error in {InvalidHex, InvalidBase64, InvalidType}
  {
    match ruleType
    case Ascii => Ok(Utf8.Encode(text))
    case Hex =>
      (match Hex.Decode(text)
       case None => Err(InvalidHex)
       case Some(bytes) => Ok(bytes))
    case Base64 =>
      (match Base64.Decode(text)
       case None => Err(InvalidBase64)
       case Some(bytes) => Ok(bytes))
    case Unknown(_) => Err(InvalidType)
  }

  /** Each submitted form gives back the bytes it encodes. */
  lemma {:induction false} DecodeRuleTextRoundTrips(bytes: seq<byte>, text: string)
    ensures DecodeRuleText(Hex.Encode(bytes), Http.Hex) == Ok(bytes)
    ensures DecodeRuleText(Base64.Encode(bytes), Http.Base64) == Ok(bytes)
    ensures DecodeRuleText(text, Http.Ascii).Ok? && Utf8.Decode(DecodeRuleText(text, Http.Ascii).value) == Some(text)
  {
    Hex.DecodeEncode(bytes);
    Base64.DecodeEncode(bytes);
    Utf8.DecodeEncode(text);
  }

  /** Any non-empty text that is accepted gives a non-empty rule. */
  lemma {:induction false} AcceptedTextIsNonEmpty(text: string, ruleType: Http.RuleType)
    requires text != [] && DecodeRuleText(text, ruleType).Ok?
    ensures |DecodeRuleText(text, ruleType).value| > 0
  {
    match ruleType
    case Ascii =>
    case Hex =>
    case Base64 =>
      Base64.DecodeNonEmpty(text);
    case Unknown(_) =>
  }

  /** A row of the rules table. */
  datatype StoredRule = StoredRule(b64Rule: string, serviceName: string)

  /** A message sent on the channel of a service. */
  datatype Sent = Sent(service: string, message: RuleModel.ParsedRule)

  /** The web server's state as the rules controller sees it. */
  class RuleServer {
    /** The services of the configuration, each with a channel to its proxy task. */
    const services: set<string>
    /** The rules table, by row id. */
    var table: map<nat, StoredRule>
    /** `last_insert_rowid`: the row id of the latest insertion. */
    var lastInsertRowId: nat
    /** The messages sent on the channels, oldest first. */
    var sent: seq<Sent>

    constructor (services: set<string>)
      ensures this.services == services
      ensures table == map[] && lastInsertRowId == 0 && sent == []
    {
      this.services := services;
      table := map[];
      lastInsertRowId := 0;
      sent := [];
    }

    /**
     * Every stored rule belongs to a configured service and holds canonical
     * base64; every rule message goes to a configured service.
     */
    predicate Valid()
      reads this
    {
      && (forall id :: id in table ==> table[id].serviceName in services)
      && (forall id :: id in table ==> Base64.Decode(table[id].b64Rule).Some?)
      && (forall i :: 0 <= i < |sent| ==> sent[i].service in services)
    }

    /**
     * `add_rule`: the text is decoded first, then the service is looked up;
     * an accepted rule is stored under `newId`, the row id the database
     * chooses, sent to the service's proxy task, and returned with status 201.
     */
    method AddRule(request: Http.RuleRequest, newId: nat) returns (response: Http.Response)
      requires Valid()
      requires newId !in table
      modifies this
      ensures Valid()
      ensures DecodeRuleText(request.ruleText, request.ruleType).Err? ==>
        && response == Http.Response(Http.BadRequest, Http.MessageBody(DecodeRuleText(request.ruleText, request.ruleType).error))
        && table == old(table) && lastInsertRowId == old(lastInsertRowId) && sent == old(sent)
      ensures DecodeRuleText(request.ruleText, request.ruleType).Ok? && request.serviceName !in services ==>
        && response == Http.Response(Http.NotFound, Http.MessageBody(ServiceNotFound))
        && table == old(table) && lastInsertRowId == old(lastInsertRowId) && sent == old(sent)
      ensures DecodeRuleText(request.ruleText, request.ruleType).Ok? && request.serviceName in services ==>
        var bytes := DecodeRuleText(request.ruleText, request.ruleType).value;
        var stored := StoredRule(Base64.Encode(bytes), request.serviceName);
        && table == old(table)[newId := stored]
        && lastInsertRowId == newId
        && sent == old(sent) + [Sent(request.serviceName,
             RuleModel.ParsedRule(newId, Some(request.serviceName), Some(bytes), RuleModel.AddRule))]
        && response == Http.Response(Http.Created,
             Http.RuleBody(Http.RuleJson(newId, stored.b64Rule, request.serviceName)))
    {
      var decoded := DecodeRuleText(request.ruleText, request.ruleType);
      if decoded.Err? {
        return Http.Response(Http.BadRequest, Http.MessageBody(decoded.error));
      }
      var bytes := decoded.value;
      if request.serviceName !in services {
        return Http.Response(Http.NotFound, Http.MessageBody(ServiceNotFound));
      }
      var encoded := Base64.Encode(bytes);
      Base64.DecodeEncode(bytes);
      table := table[newId := StoredRule(encoded, request.serviceName)];
      lastInsertRowId := newId;
      var message := RuleModel.ParsedRule(lastInsertRowId, Some(request.serviceName), Some(bytes), RuleModel.AddRule);
      sent := sent + [Sent(request.serviceName, message)];
      response := Http.Response(Http.Created, Http.RuleBody(Http.RuleJson(lastInsertRowId, encoded, request.serviceName)));
    }

    /**
     * `delete_rule`: the rule's service is looked up, the row deleted, and
     * when a row went, a removal message is sent to that service. The message
     * carries `last_insert_rowid`, the id of the latest insertion, and not the
     * id of the deleted rule.
     */
    method DeleteRule(ruleId: nat) returns (response: Http.Response)
      requires Valid()
      modifies this
      ensures Valid()
      ensures ruleId !in old(table) ==>
        && response == Http.Response(Http.NotFound, Http.MessageBody(RuleNotFound))
        && table == old(table) && sent == old(sent)
      ensures ruleId in old(table) ==>
        && response == Http.Response(Http.Ok, Http.MessageBody(DeletedOk))
        && table == old(table) - {ruleId}
        && sent == old(sent) + [Sent(old(table)[ruleId].serviceName,
             RuleModel.ParsedRule(old(lastInsertRowId), None, None, RuleModel.RemoveRule))]
      ensures lastInsertRowId == old(lastInsertRowId)
    {
      var serviceName := if ruleId in table then table[ruleId].serviceName else "";
      var deleted := if ruleId in table then 1 else 0;
      table := table - {ruleId};
      if deleted == 0 {
        return Http.Response(Http.NotFound, Http.MessageBody(RuleNotFound));
      }
      // the channel lookup's `unwrap` holds: stored rules belong to configured services
      assert serviceName in services;
      var message := RuleModel.ParsedRule(lastInsertRowId, None, None, RuleModel.RemoveRule);
      sent := sent + [Sent(serviceName, message)];
      response := Http.Response(Http.Ok, Http.MessageBody(DeletedOk));
    }

    /** `get_services_names`: each configured service once, in the map's own order. */
    method GetServicesNames() returns (names: seq<string>)
      ensures |names| == |services|
      ensures forall name :: name in names <==> name in services
      ensures forall i, j :: 0 <= i < j < |names| ==> names[i] != names[j]
    {
      names := [];
      var remaining := services;
      while remaining != {}
        invariant remaining <= services
        invariant forall name :: name in names <==> name in services - remaining
        invariant forall i :: 0 <= i < |names| ==> names[i] !in remaining
        invariant forall i, j :: 0 <= i < j < |names| ==> names[i] != names[j]
        invariant |names| + |remaining| == |services|
        decreases |remaining|
      {
        var name :| name in remaining;
        assert name !in names;
        names := names + [name];
        remaining := remaining - {name};
      }
    }
  }

  /**
   * Two rules added to one service, then the first deleted: the removal
   * message names the second.
   */
  method DeleteAfterTwoInsertions() returns (reported: nat)
    ensures reported == 2
  {
    var server := new RuleServer({"web"});
    assert DecodeRuleText("GET", Http.Ascii).Ok? && DecodeRuleText("POST", Http.Ascii).Ok?;
    var first := server.AddRule(Http.RuleRequest("web", "GET", Http.Ascii), 1);
    assert 1 in server.table && server.lastInsertRowId == 1;
    var second := server.AddRule(Http.RuleRequest("web", "POST", Http.Ascii), 2);
    assert 1 in server.table && server.lastInsertRowId == 2;
    var deleted := server.DeleteRule(1);
    reported := server.sent[|server.sent| - 1].message.id;
  }
}
