/**
 * The JSON shapes that travel between the console and the rules controller:
 * the body of `POST /rules`, the rule objects the server returns, the
 * `{message}` body of an error, and a response status.
 */
module Http {

  /** The `rule_type` of a creation request; any name other than the three is `Unknown`. */
  datatype RuleType = Ascii | Hex | Base64 | Unknown(name: string)

  /** The body of `POST /rules`. */
  datatype RuleRequest = RuleRequest(serviceName: string, ruleText: string, ruleType: RuleType)

  /** A rule object: its id, its bytes in base64, and its service. */
  datatype RuleJson = RuleJson(id: int, b64Rule: string, serviceName: string)

  /** A response body: a `{message}` object, a rule object, or something that is not JSON. */
  datatype Body = MessageBody(message: string) | RuleBody(rule: RuleJson) | NotJson

  datatype Response = Response(status: int, body: Body)

  const Ok := 200
  const Created := 201
  const BadRequest := 400
  const NotFound := 404
}
