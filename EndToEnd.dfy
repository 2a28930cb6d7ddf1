/**
 * How the parts fit together: what the console shows of a rule the
 * controller created, what it makes of the controller's errors, and which
 * rules reach the proxy's check.
 */
module EndToEnd {
  import opened Wrappers
  import Http
  import Base64
  import Utf8
  import RuleCodec
  import Markup
  import Dom
  import Console
  import RulesController
  import Proxy

  /** The 201 answer of `add_rule` for an accepted request. */
  function CreatedAnswer(request: Http.RuleRequest, newId: nat, bytes: seq<byte>): Http.Response {
    Http.Response(Http.Created, Http.RuleBody(Http.RuleJson(newId, Base64.Encode(bytes), request.serviceName)))
  }

  /**
   * A created rule is appended to the page showing its bytes as
   * `parseRule` formats them.
   */
  lemma {:induction false} CreatedRuleIsShown(request: Http.RuleRequest, newId: nat)
    requires RulesController.DecodeRuleText(request.ruleText, request.ruleType).Ok?
    ensures var bytes := RulesController.DecodeRuleText(request.ruleText, request.ruleType).value;
      Console.AddReply(Some(CreatedAnswer(request, newId, bytes)))
        == Console.Added(Dom.Item(newId, RuleCodec.Format(bytes)))
  {
    var bytes := RulesController.DecodeRuleText(request.ruleText, request.ruleType).value;
    Base64.DecodeEncode(bytes);
  }

  /** Printable ASCII text submitted as ASCII is shown exactly as typed. */
  lemma {:induction false} PrintableAsciiShownAsTyped(text: string)
    requires forall i :: 0 <= i < |text| ==> 32 <= text[i] as int <= 126
    ensures var bytes := RulesController.DecodeRuleText(text, Http.Ascii).value;
      RuleCodec.Format(bytes) == text
  {
    var bytes := Utf8.Encode(text);
    Utf8.EncodeAscii(text);
    assert forall i :: 0 <= i < |bytes| ==> RuleCodec.IsPrintable(bytes[i]) by {
      forall i | 0 <= i < |bytes| ensures RuleCodec.IsPrintable(bytes[i]) {
        assert bytes[i] == text[i] as int;
      }
    }
    RuleCodec.FormatPrintableIsIdentity(bytes);
    var shown := RuleCodec.Format(bytes);
    forall i | 0 <= i < |text| ensures shown[i] == text[i] {
      assert shown[i] as int == text[i] as int;
    }
  }

  /** The item of a stored rule shows it as `parseRule` formats it, escaped. */
  lemma {:induction false} StoredRuleItemReadsBack(id: int, bytes: seq<byte>)
    ensures RuleCodec.DecodeForDisplay(Base64.Encode(bytes)) == Some(RuleCodec.Format(bytes))
    ensures var html := Markup.RuleHtml(id, RuleCodec.Format(bytes));
      && |Markup.ItemHead(id)| + |Markup.ItemTail(id)| <= |html|
      && Markup.Unescape(html[|Markup.ItemHead(id)|..|html| - |Markup.ItemTail(id)|]) == RuleCodec.Format(bytes)
  {
    Base64.DecodeEncode(bytes);
    Markup.RuleHtmlShowsText(id, RuleCodec.Format(bytes));
  }

  /**
   * A decoding error of `add_rule` (a 400) becomes the rule field's
   * feedback; its "Service not found" (a 404) shows only the error toast.
   */
  lemma {:induction false} ControllerErrorsOnThePage(request: Http.RuleRequest)
    ensures RulesController.DecodeRuleText(request.ruleText, request.ruleType).Err? ==>
      var message := RulesController.DecodeRuleText(request.ruleText, request.ruleType).error;
      Console.AddReply(Some(Http.Response(Http.BadRequest, Http.MessageBody(message)))) == Console.Rejected(Some(message))
    ensures Console.AddReply(Some(Http.Response(Http.NotFound, Http.MessageBody(RulesController.ServiceNotFound))))
      == Console.Failed
  {
  }

  /**
   * The console sends only non-empty text, so every rule it gets accepted is
   * non-empty and can be checked by the proxy.
   */
  lemma {:induction false} ConsoleRulesAreCheckable(service: string, text: string, ruleType: Http.RuleType)
    requires service != Console.DefaultService && text != ""
    requires RulesController.DecodeRuleText(text, ruleType).Ok?
    ensures Proxy.NonEmptyRules([RulesController.DecodeRuleText(text, ruleType).value])
  {
    RulesController.AcceptedTextIsNonEmpty(text, ruleType);
  }

  /**
   * The controller alone accepts empty ASCII text as an empty rule, which
   * the proxy's `find_subsequence` cannot take (`windows(0)` panics).
   */
  lemma {:induction false} EmptyAsciiRuleAccepted()
    ensures RulesController.DecodeRuleText("", Http.Ascii) == Ok([])
    ensures !Proxy.NonEmptyRules([RulesController.DecodeRuleText("", Http.Ascii).value])
  {
    var rules: seq<seq<byte>> := [RulesController.DecodeRuleText("", Http.Ascii).value];
    assert Utf8.Encode("") == [];
    assert |rules[0]| == 0;
  }
}
