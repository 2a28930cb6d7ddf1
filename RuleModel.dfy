/**
 * The message the rules controller sends to a service's proxy task over its
 * channel (src/models/rule.rs, as the controllers build it).
 */
module RuleModel {
  import opened Wrappers

  datatype RuleAction = AddRule | RemoveRule

  /** A rule change: the rule's id, and for an addition its service and bytes. */
  datatype ParsedRule = ParsedRule(id: nat, serviceName: Option<string>, rule: Option<seq<byte>>, action: RuleAction)
}
