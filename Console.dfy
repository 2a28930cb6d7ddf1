/**
 * The console page (static/js/index.js): the services and their rules it
 * shows, the form that adds a rule, and the buttons that delete one. What the
 * script reads or changes on the page is a field of `Page`; the answer to each
 * `fetch` the script awaits is a parameter of the method that awaits it, with
 * `None` standing for a rejected `fetch` or a body that is not JSON.
 */
module Console {
  import opened Wrappers
  import Http
  import RuleCodec
  import Dom

  /** The notification toasts. */
  datatype Toast = AddSuccess | DeleteSuccess | Failure

  const SelectServiceId := "select-service"
  const RuleTextId := "rule-text"
  /** The value of the placeholder option of `#select-service`. */
  const DefaultService := "default"

  /** The rules of one service as displayed, or None when one of them is not valid base64. */
  function DisplayItems(rules: seq<Http.RuleJson>): (r: Option<seq<Dom.Item>>)
    ensures r.Some? <==> forall i :: 0 <= i < |rules| ==> RuleCodec.DecodeForDisplay(rules[i].b64Rule).Some?
    ensures r.Some? ==> |r.value| == |rules|
    ensures r.Some? ==> forall i :: 0 <= i < |rules| ==>
      r.value[i] == Dom.Item(rules[i].id, RuleCodec.DecodeForDisplay(rules[i].b64Rule).value)
  {
    if rules == [] then Some([])
    else match (RuleCodec.DecodeForDisplay(rules[0].b64Rule), DisplayItems(rules[1..]))
      case (Some(text), Some(items)) => Some([Dom.Item(rules[0].id, text)] + items)
      case _ => None
  }

  /** No rule object appears twice. */
  predicate Distinct(rules: seq<RuleCodec.WireRule>) {
    forall j, k :: 0 <= j < k < |rules| ==> rules[j] != rules[k]
  }

  /** Every service's rules were fetched and are valid base64. */
  predicate AllShown(replies: seq<Option<seq<Http.RuleJson>>>) {
    forall j :: 0 <= j < |replies| ==> replies[j].Some? && DisplayItems(replies[j].value).Some?
  }

  /** The displayed rule lists of services whose rules were all fetched and valid. */
  function Lists(replies: seq<Option<seq<Http.RuleJson>>>): (r: seq<seq<Dom.Item>>)
    requires AllShown(replies)
    ensures |r| == |replies|
    ensures forall j :: 0 <= j < |replies| ==> r[j] == DisplayItems(replies[j].value).value
  {
    if replies == [] then []
    else
      var rest := replies[1..];
      assert forall j :: 1 <= j < |replies| ==> rest[j - 1] == replies[j];
      [DisplayItems(replies[0].value).value] + Lists(rest)
  }

  /** What `addRule` makes of the answer to its `POST /rules`. */
  datatype AddOutcome =
    | Rejected(message: Option<string>)  // a 400: the message, if any, becomes the field's feedback
    | Failed                             // the error toast
    | Added(item: Dom.Item)              // the rule's item is appended and the success toast shown

  /**
   * The answer is read as JSON first; a 400 is a rejection of the text; any
   * other status is taken for a created rule, which fails when the body has no
   * decodable `b64_rule` (a `{message}` body has none: `atob` reads the missing
   * field as the text "undefined", which is not base64).
   */
  function AddReply(reply: Option<Http.Response>): (r: AddOutcome)
    ensures r.Rejected? <==> reply.Some? && reply.value.status == Http.BadRequest && !reply.value.body.NotJson?
    ensures r.Rejected? ==> (r.message.Some? <==> reply.value.body.MessageBody?)
    ensures r.Rejected? && r.message.Some? ==> r.message.value == reply.value.body.message
    ensures r.Added? <==>
      && reply.Some? && reply.value.status != Http.BadRequest && reply.value.body.RuleBody?
      && RuleCodec.DecodeForDisplay(reply.value.body.rule.b64Rule).Some?
    ensures r.Added? ==> r.item.id == reply.value.body.rule.id
    ensures r.Added? ==> r.item.text == RuleCodec.DecodeForDisplay(reply.value.body.rule.b64Rule).value
  {
    match reply
    case None => Failed
    case Some(Response(status, body)) =>
      if body.NotJson? then Failed
      else if status == Http.BadRequest then
        (if body.MessageBody? then Rejected(Some(body.message)) else Rejected(None))
      else match body
        case RuleBody(rule) =>
          (match RuleCodec.DecodeForDisplay(rule.b64Rule)
           case Some(text) => Added(Dom.Item(rule.id, text))
           case None => Failed)
        case _ => Failed
  }

  /** "undefined" is not base64, so a reply without `b64_rule` cannot be displayed. */
  lemma {:induction false} UndefinedIsNotBase64()
    ensures RuleCodec.DecodeForDisplay("undefined").None?
  {
    assert |"undefined"| % 4 == 1;
  }

  /** The input fields marked invalid by the form check of `addRule`. */
  function FormErrors(service: string, ruleText: string): (r: set<string>)
    ensures SelectServiceId in r <==> service == DefaultService
    ensures RuleTextId in r <==> ruleText == ""
    ensures r <= {SelectServiceId, RuleTextId}
  {
    (if service == DefaultService then {SelectServiceId} else {})
      + (if ruleText == "" then {RuleTextId} else {})
  }

  class Page {
    /** `savedServices`: the services the server reported. */
    var savedServices: seq<string>
    /** The options appended to `#select-service`, after its placeholder. */
    var options: seq<string>
    /** The service cards of `#rules-div`, with their rules. */
    var cards: seq<Dom.Card>
    /** The ids of the inputs that carry the `is-invalid` class. */
    var invalid: set<string>
    /** The markup of `#rule-text-invalid-feedback`. */
    var feedback: string
    /** The toasts shown, oldest first. */
    var toasts: seq<Toast>

    /** The page as loaded, before `main` runs. */
    constructor ()
      ensures savedServices == [] && options == [] && cards == []
      ensures invalid == {} && feedback == "" && toasts == []
    {
      savedServices := [];
      options := [];
      cards := [];
      invalid := {};
      feedback := "";
      toasts := [];
    }

    /** `getServices`: the reply becomes `savedServices`. */
    method GetServices(reply: seq<string>) returns (services: seq<string>)
      modifies this
      ensures services == reply && savedServices == reply
      ensures options == old(options) && cards == old(cards) && invalid == old(invalid)
      ensures feedback == old(feedback) && toasts == old(toasts)
    {
      savedServices := reply;
      services := reply;
    }

    /** `writeServices`: one option per service, in order. */
    method WriteServices(reply: seq<string>)
      modifies this
      ensures savedServices == reply && options == old(options) + reply
      ensures cards == old(cards) && invalid == old(invalid)
      ensures feedback == old(feedback) && toasts == old(toasts)
    {
      var services := GetServices(reply);
      for i := 0 to |services|
        invariant savedServices == reply && options == old(options) + services[..i]
        invariant cards == old(cards) && invalid == old(invalid)
        invariant feedback == old(feedback) && toasts == old(toasts)
      {
        options := options + [services[i]];
      }
      assert services[..|services|] == services;
    }

    /**
     * `getRulesByServiceName` once its `fetch` answered: the JSON array
     * becomes fresh rule objects, each rewritten by `parseRule`; the first one
     * that is not base64 makes it throw (`ok` false).
     */
    method GetRulesByServiceName(reply: seq<Http.RuleJson>) returns (rules: seq<RuleCodec.WireRule>, ok: bool)
      ensures ok == DisplayItems(reply).Some?
      ensures ok ==> |rules| == |reply|
      ensures ok ==> forall i :: 0 <= i < |reply| ==>
        rules[i].id == reply[i].id && rules[i].b64Rule == DisplayItems(reply).value[i].text
      ensures forall i :: 0 <= i < |rules| ==> fresh(rules[i])
    {
      rules := NewRules(reply);
      for i := 0 to |rules|
        invariant forall j :: 0 <= j < |rules| ==> fresh(rules[j])
        invariant Distinct(rules)
        invariant forall j :: 0 <= j < i ==> RuleCodec.DecodeForDisplay(reply[j].b64Rule).Some?
        invariant forall j :: 0 <= j < i ==>
          rules[j].id == reply[j].id && rules[j].b64Rule == RuleCodec.DecodeForDisplay(reply[j].b64Rule).value
        invariant forall j :: i <= j < |rules| ==>
          rules[j].id == reply[j].id && rules[j].b64Rule == reply[j].b64Rule
      {
        var rule := rules[i];
        label before:
        var parsed := RuleCodec.ParseRule(rule);
        if !parsed {
          ok := false;
          return;
        }
        forall j | 0 <= j < |rules| && j != i
          ensures rules[j].id == old@before(rules[j].id) && rules[j].b64Rule == old@before(rules[j].b64Rule)
        {
          assert rules[j] != rule;
        }
      }
      ok := true;
    }

    /** The JSON array of a rules reply as fresh, separate rule objects. */
    method NewRules(reply: seq<Http.RuleJson>) returns (rules: seq<RuleCodec.WireRule>)
      ensures |rules| == |reply| && Distinct(rules)
      ensures forall i :: 0 <= i < |rules| ==> fresh(rules[i])
      ensures forall i :: 0 <= i < |rules| ==>
        rules[i].id == reply[i].id && rules[i].b64Rule == reply[i].b64Rule && rules[i].serviceName == reply[i].serviceName
    {
      rules := [];
      for i := 0 to |reply|
        invariant |rules| == i && Distinct(rules)
        invariant forall j :: 0 <= j < i ==> fresh(rules[j])
        invariant forall j :: 0 <= j < i ==>
          rules[j].id == reply[j].id && rules[j].b64Rule == reply[j].b64Rule && rules[j].serviceName == reply[j].serviceName
      {
        var rule := new RuleCodec.WireRule(reply[i].id, reply[i].b64Rule, reply[i].serviceName);
        rules := rules + [rule];
      }
    }

    /**
     * `writeServicesAndRules`: for each saved service in turn, its rules are
     * fetched, then its card is appended and each rule appended to the card's
     * list. A rejected fetch or a rule that is not base64 ends the loop
     * before that service's card: `rendered` services were shown.
     */
    method WriteServicesAndRules(replies: seq<Option<seq<Http.RuleJson>>>) returns (rendered: nat)
      requires |replies| == |savedServices|
      modifies this
      ensures savedServices == old(savedServices) && options == old(options) && invalid == old(invalid)
      ensures feedback == old(feedback) && toasts == old(toasts)
      ensures rendered <= |replies|
      ensures AllShown(replies[..rendered])
      ensures rendered < |replies| ==>
        replies[rendered].None? || DisplayItems(replies[rendered].value).None?
      ensures cards == Dom.RenderServices(old(cards), savedServices[..rendered], Lists(replies[..rendered]))
    {
      rendered := 0;
      while rendered < |savedServices|
        invariant rendered <= |savedServices|
        invariant savedServices == old(savedServices) && options == old(options) && invalid == old(invalid)
        invariant feedback == old(feedback) && toasts == old(toasts)
        invariant AllShown(replies[..rendered])
        invariant cards == Dom.RenderServices(old(cards), savedServices[..rendered], Lists(replies[..rendered]))
      {
        var service := savedServices[rendered];
        if replies[rendered].None? {
          return;
        }
        var rules, ok := GetRulesByServiceName(replies[rendered].value);
        if !ok {
          return;
        }
        ShowService(service, rules, DisplayItems(replies[rendered].value).value);
        RenderPrefix(old(cards), savedServices, replies, rendered);
        rendered := rendered + 1;
      }
    }

    /** One service of `writeServicesAndRules`: its card, then each of its rules in its list. */
    method ShowService(service: string, rules: seq<RuleCodec.WireRule>, ghost items: seq<Dom.Item>)
      requires |items| == |rules|
      requires forall i :: 0 <= i < |rules| ==> items[i] == Dom.Item(rules[i].id, rules[i].b64Rule)
      modifies this
      ensures cards == Dom.AppendAll(old(cards) + [Dom.Card(service, [])], service, items)
      ensures savedServices == old(savedServices) && options == old(options) && invalid == old(invalid)
      ensures feedback == old(feedback) && toasts == old(toasts)
    {
      cards := cards + [Dom.Card(service, [])];
      ghost var start := cards;
      for i := 0 to |rules|
        invariant Dom.AppendAll(start, service, items) == Dom.AppendAll(cards, service, items[i..])
        invariant savedServices == old(savedServices) && options == old(options) && invalid == old(invalid)
        invariant feedback == old(feedback) && toasts == old(toasts)
      {
        assert items[i..][0] == items[i] && items[i..][1..] == items[i + 1..];
        cards := Dom.AppendItem(cards, service, Dom.Item(rules[i].id, rules[i].b64Rule));
      }
      assert items[|rules|..] == [];
    }

    /**
     * `addRule`: the form is checked first, both fields at once; only a
     * complete form is sent, and `request` is what was sent. `reply` is the
     * answer to it, read as `AddReply` says.
     */
    method AddRule(service: string, ruleText: string, ruleType: Http.RuleType, reply: Option<Http.Response>)
      returns (request: Option<Http.RuleRequest>)
      modifies this
      ensures request.Some? <==> service != DefaultService && ruleText != ""
      ensures request.Some? ==> request.value == Http.RuleRequest(service, ruleText, ruleType)
      ensures savedServices == old(savedServices) && options == old(options)
      ensures request.None? ==> && invalid == old(invalid) + FormErrors(service, ruleText)
                                && cards == old(cards) && feedback == old(feedback) && toasts == old(toasts)
      ensures request.Some? && AddReply(reply).Rejected? ==>
        && invalid == old(invalid) + {RuleTextId} && cards == old(cards) && toasts == old(toasts)
        && feedback == (if AddReply(reply).message.Some? then AddReply(reply).message.value else old(feedback))
      ensures request.Some? && AddReply(reply).Failed? ==>
        && toasts == old(toasts) + [Failure]
        && invalid == old(invalid) && cards == old(cards) && feedback == old(feedback)
      ensures request.Some? && AddReply(reply).Added? ==>
        && cards == Dom.AppendItem(old(cards), service, AddReply(reply).item)
        && toasts == old(toasts) + [AddSuccess]
        && invalid == old(invalid) && feedback == old(feedback)
    {
      var error := false;
      if service == DefaultService {
        invalid := invalid + {SelectServiceId};
        error := true;
      }
      if ruleText == "" {
        invalid := invalid + {RuleTextId};
        error := true;
      }
      if error {
        return None;
      }
      request := Some(Http.RuleRequest(service, ruleText, ruleType));
      if reply.None? || reply.value.body.NotJson? {
        toasts := toasts + [Failure];
        return;
      }
      var response := reply.value;
      if response.status == Http.BadRequest {
        if response.body.MessageBody? {
          feedback := response.body.message;
        }
        invalid := invalid + {RuleTextId};
        return;
      }
      if !response.body.RuleBody? {
        UndefinedIsNotBase64();
        toasts := toasts + [Failure];
        return;
      }
      var json := response.body.rule;
      var rule := new RuleCodec.WireRule(json.id, json.b64Rule, json.serviceName);
      var parsed := RuleCodec.ParseRule(rule);
      if !parsed {
        toasts := toasts + [Failure];
        return;
      }
      cards := Dom.AppendItem(cards, service, Dom.Item(rule.id, rule.b64Rule));
      toasts := toasts + [AddSuccess];
    }

    /**
     * `deleteRule`: `reply` is the status of `DELETE /rules/<ruleId>`, or None
     * when the fetch is rejected (only logged). On 200 the rule's item goes.
     */
    method DeleteRule(ruleId: int, reply: Option<int>)
      modifies this
      ensures reply.None? ==> cards == old(cards) && toasts == old(toasts)
      ensures reply.Some? && reply.value != Http.Ok ==>
        cards == old(cards) && toasts == old(toasts) + [Failure]
      ensures reply == Some(Http.Ok) ==>
        cards == Dom.RemoveNode(old(cards), ruleId) && toasts == old(toasts) + [DeleteSuccess]
      ensures savedServices == old(savedServices) && options == old(options)
      ensures invalid == old(invalid) && feedback == old(feedback)
    {
      if reply.None? {
        return;
      }
      if reply.value != Http.Ok {
        toasts := toasts + [Failure];
        return;
      }
      toasts := toasts + [DeleteSuccess];
      cards := Dom.RemoveNode(cards, ruleId);
    }

    /** `clearInvalid`: the input is no longer marked and the feedback is emptied. */
    method ClearInvalid(id: string)
      modifies this
      ensures invalid == old(invalid) - {id} && feedback == ""
      ensures savedServices == old(savedServices) && options == old(options)
      ensures cards == old(cards) && toasts == old(toasts)
    {
      invalid := invalid - {id};
      feedback := "";
    }

    /**
     * `main`: the services, then their rules. A rejected services fetch
     * throws before any rule is fetched.
     */
    method Load(servicesReply: Option<seq<string>>, rulesReplies: seq<Option<seq<Http.RuleJson>>>)
      returns (rendered: nat)
      requires servicesReply.Some? ==> |rulesReplies| == |servicesReply.value|
      modifies this
      ensures servicesReply.None? ==> && rendered == 0 && cards == old(cards) && options == old(options)
                                      && savedServices == old(savedServices)
      ensures servicesReply.Some? ==> && savedServices == servicesReply.value
                                      && options == old(options) + servicesReply.value
      ensures servicesReply.Some? ==> rendered <= |rulesReplies|
      ensures servicesReply.Some? ==> AllShown(rulesReplies[..rendered])
      ensures servicesReply.Some? ==>
        cards == Dom.RenderServices(old(cards), savedServices[..rendered], Lists(rulesReplies[..rendered]))
      ensures servicesReply.Some? && rendered < |rulesReplies| ==>
        rulesReplies[rendered].None? || DisplayItems(rulesReplies[rendered].value).None?
      ensures invalid == old(invalid) && feedback == old(feedback) && toasts == old(toasts)
    {
      rendered := 0;
      if servicesReply.None? {
        return;
      }
      WriteServices(servicesReply.value);
      rendered := WriteServicesAndRules(rulesReplies);
    }
  }

  lemma {:induction false} ListsSnoc(replies: seq<Option<seq<Http.RuleJson>>>, reply: Option<seq<Http.RuleJson>>)
    requires AllShown(replies) && reply.Some? && DisplayItems(reply.value).Some?
    ensures Lists(replies + [reply]) == Lists(replies) + [DisplayItems(reply.value).value]
  {
    var all := replies + [reply];
    assert AllShown(all) by {
      assert forall j :: 0 <= j < |all| ==> all[j] == if j < |replies| then replies[j] else [reply][0];
    }
    assert forall j :: 0 <= j < |replies| ==> all[j] == replies[j];
    assert all[|replies|] == reply;
    var l, r := Lists(all), Lists(replies) + [DisplayItems(reply.value).value];
    assert |l| == |r|;
    forall j | 0 <= j < |l| ensures l[j] == r[j] {
      if j < |replies| { assert all[j] == replies[j]; }
    }
  }

  /** The services shown after one more step of `writeServicesAndRules`. */
  lemma {:induction false} RenderPrefix(cards: seq<Dom.Card>, services: seq<string>, replies: seq<Option<seq<Http.RuleJson>>>, k: nat)
    requires k < |services| == |replies|
    requires AllShown(replies[..k]) && replies[k].Some? && DisplayItems(replies[k].value).Some?
    ensures AllShown(replies[..k + 1])
    ensures Dom.RenderServices(cards, services[..k + 1], Lists(replies[..k + 1]))
      == Dom.AppendAll(Dom.RenderServices(cards, services[..k], Lists(replies[..k])) + [Dom.Card(services[k], [])],
                       services[k], DisplayItems(replies[k].value).value)
  {
    assert services[..k + 1] == services[..k] + [services[k]];
    assert replies[..k + 1] == replies[..k] + [replies[k]];
    ListsSnoc(replies[..k], replies[k]);
    RenderServicesSnoc(cards, services[..k], Lists(replies[..k]), services[k], DisplayItems(replies[k].value).value);
  }

  /** Rendering one more service extends the rendering of the ones before it. */
  lemma {:induction false} RenderServicesSnoc(cards: seq<Dom.Card>, services: seq<string>,
                                              lists: seq<seq<Dom.Item>>, service: string, items: seq<Dom.Item>)
    requires |services| == |lists|
    ensures Dom.RenderServices(cards, services + [service], lists + [items])
      == Dom.AppendAll(Dom.RenderServices(cards, services, lists) + [Dom.Card(service, [])], service, items)
    decreases |services|
  {
    if services == [] {
      assert services + [service] == [service] && lists + [items] == [items];
    } else {
      assert (services + [service])[1..] == services[1..] + [service];
      assert (lists + [items])[1..] == lists[1..] + [items];
      RenderServicesSnoc(Dom.AppendAll(cards + [Dom.Card(services[0], [])], services[0], lists[0]),
                         services[1..], lists[1..], service, items);
    }
  }

  /**
   * On a fresh page, with distinct services, the rules appear grouped by
   * service in the order the services were listed, each group in the order
   * the server returned it.
   */
  lemma {:induction false} LoadedOrder(services: seq<string>, replies: seq<Option<seq<Http.RuleJson>>>)
    requires |services| == |replies|
    requires Dom.DistinctServices(services)
    requires AllShown(replies)
    ensures Dom.Nodes(Dom.RenderServices([], services, Lists(replies))) == Dom.Flatten(Lists(replies))
    ensures Dom.Services(Dom.RenderServices([], services, Lists(replies))) == services
  {
    Dom.RenderOrder([], services, Lists(replies));
  }
}
