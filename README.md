# bear-proxy, modelled in Dafny

bear-proxy is a TCP proxy that sits in front of one or more services. Each
configured service has a proxy task. The task accepts client connections
and copies bytes between the client and the real server in both directions.
The copy from the client stops, returning 0, as soon as one read holds one
of the service's rules (a byte string). Rules are managed over HTTP by a
rules controller. It decodes a submitted rule text (ASCII, hex or base64),
stores the rule base64-encoded, and sends it to the service's task over a
channel. A browser console lists the services and their rules, adds rules
through a form and deletes them.

The model has three parts:

- **Console (`static/js/index.js`).**
  - `RuleCodec`: `base64ToArrayBuffer` and `parseRule` as methods over an
    array and a rule object updated in place.
  - `Markup`: `escapeHTML` and `getRuleHtml` as functions.
  - `Dom`: the rules part of the page as a value. It holds one card per
    service, and each card holds a list of rule items.
  - `Console.Page`: a class whose fields are what the script reads or
    changes on the page. Its methods are `getServices`, `writeServices`,
    `writeServicesAndRules`, `addRule`, `deleteRule`, `clearInvalid` and
    `main`.
- **Proxy (`src/main.rs`).**
  - `find_subsequence` as a function.
  - `copy_with_abort` as a method with a loop over a 1024-byte array,
    proved against a function `Copy` over the sequence of reads.
  - The drain of the rule channel in `start_service` as a method of the
    `ProxyService` class, whose field is the task's list of rules.
- **Rules controller (`src/controllers/rules.rs`).**
  - `RuleServer` is a class holding the configured services, the rules
    table, `last_insert_rowid` and the messages sent on the channels.
  - Its methods are `add_rule`, `delete_rule` and `get_services_names`.

The encodings the system relies on are functions with round-trip proofs:

- base64 as in section 4 of RFC 4648 (`Base64`). Decoding is strict: padding
  is required and unused bits must be zero.
- hex as in section 8 of RFC 4648 (`Hex`). Either case is decoded and
  lowercase is produced.
- UTF-8 as in RFC 3629 (`Utf8`).
- decimal numerals (`Decimal`), used for element ids such as `rule-<id>`.

`EndToEnd` connects the three parts.

Replies to `fetch`, the id the database chooses for a new row, and the data
each socket read returns are parameters of the methods that wait for them.

Notes on the code as written:

- `escapeHTML` builds a text node and reads back `innerHTML`. That escapes
  `&`, `<`, `>` and the no-break space, but not quotes.
- The controller's removal message carries `last_insert_rowid()`. That is
  the id of the latest insertion, not the id of the deleted rule
  (`RulesController.DeleteAfterTwoInsertions`).
- `static/js/index.js:185` starts `main` through `$(document).onload(...)`.
  jQuery has no `onload` method, so that call throws and `main` never runs
  on page load. `Console.Page.Load` states what `main` does when it is
  called.
- `src/main.rs` creates a `rules(id, rule)` table without a `service_name`
  column, and registers only `GET` and `POST /rules`. `src/models/rule.rs`
  declares neither `Rule` nor `RuleTypeDTO`, and its `ParsedRule` fields are
  not options. The controller cannot run against these as written. The model
  follows the controller: a table keyed by row id holding the base64 text and
  the service name, and messages with optional service name and rule.

## Model

| member | source | states |
|---|---|---|
| Markup.EscapeHtml | static/js/index.js:3-7 | the escaped text contains no `<` and no `>`, so the rule text cannot open or close a tag |
| Markup.UnescapeEscape | static/js/index.js:3-7 | decoding the entities of the escaped text gives the text back: escaping loses nothing |
| Markup.EscapeAppend | static/js/index.js:3-7 | escaping works character by character: escaping a concatenation is concatenating the escapes |
| Markup.EscapeIdentity | static/js/index.js:3-7 | text without `&`, `<`, `>` or a no-break space is left as it is; quotes are among the characters left alone |
| Markup.EscapePrintable | static/js/index.js:3-7 | escaping printable ASCII gives printable ASCII |
| Markup.DomIdInjective | static/js/index.js:62 | two rules have the same element id `rule-<id>` exactly when they have the same id |
| Decimal.IntToStringInjective | static/js/index.js:62 | the decimal text of an id determines the id, negative ids included |
| Decimal.ParseNatToString | static/js/index.js:62 | reading back the decimal text of a natural number gives the number |
| Decimal.SignOfString | static/js/index.js:62 | the decimal text starts with `-` exactly when the id is negative |
| Markup.RuleHtmlTagsIndependentOfText | static/js/index.js:60-78 | a rule's markup has as many `<` and `>` whatever its text, so the text adds no element |
| Markup.RuleHtmlShowsText | static/js/index.js:60-78 | the markup is the fixed head and tail around the escaped text, and unescaping the middle gives the text |
| RuleCodec.Atob | static/js/index.js:10 | `atob` succeeds exactly on canonical, padded base64; the binary string has one character per decoded byte, with that byte as its code |
| RuleCodec.Base64ToArrayBuffer | static/js/index.js:9-16 | the array has one element per character of the binary string, holding its code, so it holds the decoded bytes; malformed base64 gives no array |
| Hex.ByteToHex | static/js/index.js:25 | two lowercase hex digits whose value is the byte, as `toString(16).padStart(2, '0')` writes it |
| RuleCodec.FormatLength | static/js/index.js:21-27 | each printable byte gives one character and every other byte gives four (`\xhh`) |
| RuleCodec.FormatAppend | static/js/index.js:21-27 | bytes are formatted one by one, in order |
| RuleCodec.FormatPrintableIsIdentity | static/js/index.js:21-27 | bytes in 32..126 are shown as the characters with those codes |
| RuleCodec.FormatNotInjective | static/js/index.js:21-27 | the display is ambiguous: the byte 0 and the printable bytes `\x00` show as the same text |
| RuleCodec.ParseRule | static/js/index.js:18-30 | the rule's `b64_rule` becomes the display text of its decoded bytes and no other field changes; where `atob` throws, the rule is left as it was |
| Console.Page.constructor | static/js/index.js:1 | the page starts with no saved services, options, cards, invalid fields, feedback or toasts |
| Console.Page.GetServices | static/js/index.js:32-38 | the reply becomes `savedServices` and is returned; nothing on the page changes |
| Console.Page.WriteServices | static/js/index.js:40-47 | one option per service is appended, in the order of the reply |
| Console.DisplayItems | static/js/index.js:49-58 | a rules reply can be shown exactly when every rule is valid base64; item i has rule i's id and its display text |
| Console.Page.GetRulesByServiceName | static/js/index.js:49-58 | the reply becomes new rule objects, each rewritten by `parseRule`; it fails exactly when some rule is not valid base64 |
| Console.Page.NewRules | static/js/index.js:51 | the parsed JSON array gives one new, separate rule object per element, with its fields |
| Console.Lists | static/js/index.js:80-101 | with all rules fetched and shown, the item list of service j is what `DisplayItems` makes of its reply |
| Console.Page.ShowService | static/js/index.js:94-99 | a new card for the service, then each rule appended in order to that service's list |
| Console.Page.WriteServicesAndRules | static/js/index.js:80-101 | the cards are those of the services shown, in order; the loop stops before the first service whose fetch fails or whose rules are not all base64 |
| Dom.FirstCard | static/js/index.js:98 | the position of the first card of a service in document order, or none when no card has it |
| Dom.AppendItem | static/js/index.js:98 | appending a rule never adds or removes a card |
| Dom.AppendItemSpec | static/js/index.js:98 | the item is appended to the first card of its service and nowhere else; with no such card, nothing changes |
| Dom.AppendItemToLast | static/js/index.js:96-99 | appending to the newest card, whose service no earlier card has, appends the item at the end of the document |
| Dom.RenderOrder | static/js/index.js:80-101 | with distinct services, each gets one new card in order, and all of one service's rules come before any rule of the next |
| Console.LoadedOrder | static/js/index.js:180-183 | on a fresh page the rules are shown grouped by service, in the order of the services reply, each group in the order of its rules reply |
| Console.Page.Load | static/js/index.js:180-183 | when called, `main` writes one option per service and then the services' cards as `writeServicesAndRules` does, stopping exactly at the first service whose rules fetch fails or whose rules are not all base64; when the services fetch fails, nothing changes, `savedServices` included; the form marks, feedback and toasts never change (the call at index.js:185 throws, see above) |
| Console.FormErrors | static/js/index.js:108-120 | the service field is marked exactly when no service is chosen, and the text field exactly when the text is empty |
| Console.AddReply | static/js/index.js:137-153 | a 400 with a JSON body is a rejection, showing the message if there is one; any other JSON answer is taken for a created rule, which is shown when its `b64_rule` decodes and fails otherwise |
| Console.UndefinedIsNotBase64 | static/js/index.js:145-146 | a `{message}` body has no `b64_rule`; `atob` reads it as the text "undefined", which does not decode, so `addRule` fails |
| Console.Page.AddRule | static/js/index.js:103-155 | an incomplete form marks the empty fields and sends nothing; otherwise the rule is sent, and a rejection marks the text field, a failure shows the error toast, and a created rule is appended to its service's list with the success toast |
| Console.Page.DeleteRule | static/js/index.js:157-173 | on 200 the first item with id `rule-<id>` goes and the success toast shows; any other status shows the error toast; a rejected fetch changes nothing |
| Dom.RemoveFirstSpec | static/js/index.js:168 | the first item with the rule's id is removed and every other item stays, in order; with no such item nothing changes |
| Dom.RemoveNodeNodes | static/js/index.js:168 | removing the element from the page removes the first such item from the document order and keeps every card |
| Dom.DeleteRemovesOnlyThatRule | static/js/index.js:168 | after a delete, every remaining item was there before, and only one item with that id is missing |
| Dom.DeleteWithUniqueIds | static/js/index.js:168 | when ids are unique, the items after a delete are exactly those before it whose id differs |
| Console.Page.ClearInvalid | static/js/index.js:175-178 | the input is no longer marked invalid and the feedback is empty; nothing else changes |
| Proxy.FindSubsequence | src/main.rs:221-225 | the first position where the needle occurs, or none when it occurs nowhere; the needle must be non-empty, because `windows(0)` panics |
| Proxy.BlockedIff | src/main.rs:205-212 | a read is blocked exactly when some rule occurs in it |
| Proxy.AnyRuleFound | src/main.rs:205-212 | the rule loop finds a rule exactly when the read is blocked |
| Proxy.Fill | src/main.rs:189 | a read puts its bytes at the front of the buffer |
| Proxy.CopyWithAbort | src/main.rs:171-219 | the bytes written and the result are those of `Copy` over the reads: forwarded chunks in order, stopping at the end of the stream, a reset, an abort, an error or a blocked read |
| Proxy.CopyAt | src/main.rs:189-216 | one iteration: an empty read, a reset or an abort ends the copy with the count; another error fails; a blocked client read returns 0; any other read is written and counted |
| Proxy.CopyRun | src/main.rs:184-216 | a run of forwarded reads is written unchanged and counted, and the copy goes on after it |
| Proxy.BlockedReadStopsCopy | src/main.rs:205-209 | the client copy writes what came before the first blocked read, nothing from it on, and returns 0 |
| Proxy.EndedCopyCountsBytes | src/main.rs:201-203 | a copy ended by end of stream, reset or abort has written every byte read before and returns their number |
| Proxy.CopyCount | src/main.rs:215-218 | the count returned is the number of bytes written, or 0 after a blocked read; a `Copied` count that differs from the bytes written happens only on the copy from the client, and only when some non-empty read holds a rule |
| Proxy.ServerSideForwardsAll | src/main.rs:163 | the copy towards the client ignores rules: its outcome is the same with or without them, and any run of non-empty reads is written unchanged and counted before the copy goes on from the read after it |
| Proxy.SplitRulePassesThrough | src/main.rs:205-212 | rules are checked per read, so a rule split across two reads is forwarded |
| Proxy.RulesOf | src/main.rs:139 | the rules of the drained messages, one per message, in order |
| Proxy.ProxyService.constructor | src/main.rs:128 | a service task starts with no rules |
| Proxy.ProxyService.Drain | src/main.rs:135-143 | every waiting message has its rule appended to the list, in order, whatever its action |
| Proxy.ProxyService.Connection | src/main.rs:129-166 | a connection drains the channel, then copies server to client without rules and client to server against the rules as drained |
| RulesController.DecodeRuleText | src/controllers/rules.rs:75-96 | ASCII text gives its UTF-8 bytes; hex text gives its decoded bytes, or "Invalid hex string." when it does not decode; base64 text gives its decoded bytes, or "Invalid base64 string."; any other type gives "Invalid rule type." |
| Hex.DecodeEncode | src/controllers/rules.rs:79 | decoding the hex of bytes gives the bytes |
| Hex.DecodeValue | src/controllers/rules.rs:79 | octet i of decoded hex is the value of digits 2i and 2i + 1, upper or lower case, high digit first |
| Hex.DecodeSucceedsIff | src/controllers/rules.rs:79-85 | hex text decodes exactly when it has even length and only hex digits, of either case |
| Base64.DecodeEncode | src/controllers/rules.rs:87-108 | decoding the base64 of bytes gives the bytes |
| Base64.EncodeDecode | src/controllers/rules.rs:87-93 | text that decodes is the encoding of what it decodes to: only canonical, padded base64 is accepted |
| Base64.EncodeLength | src/controllers/rules.rs:108 | the encoding has exactly `4 * ((n + 2) / 3)` characters for n bytes, so a non-empty input gives a non-empty multiple of four |
| Base64.DecodeNonEmpty | src/controllers/rules.rs:87-93 | non-empty text that decodes gives at least one byte |
| Utf8.DecodeEncode | src/controllers/rules.rs:77 | the bytes of ASCII-typed text are its UTF-8 encoding, which decodes back to the text |
| Utf8.EncodeAscii | src/controllers/rules.rs:77 | text below U+0080 gives one byte per character, with the character's code |
| RulesController.DecodeRuleTextRoundTrips | src/controllers/rules.rs:75-96 | hex and base64 encodings of bytes are accepted and give back the bytes; ASCII text is accepted and its bytes decode back to it |
| RulesController.AcceptedTextIsNonEmpty | src/controllers/rules.rs:75-96 | accepted non-empty text gives a non-empty rule |
| RulesController.RuleServer.constructor | src/main.rs:36-43 | one channel per configured service, an empty table, nothing sent |
| RulesController.RuleServer.AddRule | src/controllers/rules.rs:71-135 | text that does not decode gets a 400 with its message; an unknown service gets a 404; otherwise the rule is stored as base64 under the new row id, sent to the service's task, and answered with 201 and the stored rule; stored rules stay valid base64 of configured services |
| RulesController.RuleServer.DeleteRule | src/controllers/rules.rs:137-180 | an unknown id gets a 404 and changes nothing; otherwise the row goes, a removal message carrying `last_insert_rowid` is sent to the rule's service, and the answer is 200 "Ok." |
| RulesController.DeleteAfterTwoInsertions | src/controllers/rules.rs:164-166 | after adding rules 1 and 2 and deleting rule 1, the removal message names rule 2 |
| RulesController.RuleServer.GetServicesNames | src/controllers/rules.rs:182-193 | each configured service exactly once |
| EndToEnd.CreatedRuleIsShown | src/controllers/rules.rs:128-134 | the 201 answer for an accepted rule is shown on the page with the display text of its bytes |
| EndToEnd.PrintableAsciiShownAsTyped | static/js/index.js:21-27 | printable ASCII submitted as ASCII is shown exactly as typed |
| EndToEnd.StoredRuleItemReadsBack | static/js/index.js:18-30 | a stored rule's item shows the display text of its bytes, escaped, and unescaping gives that text |
| EndToEnd.ControllerErrorsOnThePage | static/js/index.js:138-143 | a decoding error of the controller becomes the text field's feedback; "Service not found" (a 404) shows only the error toast |
| EndToEnd.ConsoleRulesAreCheckable | static/js/index.js:113-116 | the console sends only non-empty text, so every rule it gets accepted is non-empty and the proxy can check it |
| EndToEnd.EmptyAsciiRuleAccepted | src/controllers/rules.rs:76-77 | the controller on its own accepts empty ASCII text as an empty rule, which `find_subsequence` cannot take |

## Left out

- Sockets, HTTP, `fetch`, the SQLite connection and the channels are not modelled as I/O. Their results are parameters: the replies a page method waits for, the reads a copy sees, the row id of an insertion and the messages waiting on a channel.
- Concurrency is not modelled: the `tokio` tasks, the mutexes, and the `select!` in `start_service` that cancels one copy when the other finishes. `Proxy.ProxyService.Connection` runs both copies to their ends one after the other.
- The abort channel of `copy_with_abort` is never sent on. A read that loses to it is an `Abort` event.
- `write_all` errors and connection errors to the remote server are left out; the model's writes always succeed.
- Proxy.ProxyService.Drain: requires every waiting message to carry a rule. `src/main.rs:139` pushes `message.rule` whatever the action, and the controller's removal messages carry none, so the source's behaviour there is not defined.
- Removal messages are never acted on by the proxy task (`src/main.rs:135-143`), so a deleted rule keeps blocking until restart. In the model, Drain never removes a rule, whatever a message's action; the controller's removal messages carry no rule and so fall outside Drain's requires.
- Proxy.FindSubsequence: requires a non-empty needle. An empty rule makes `windows(0)` panic; `EndToEnd.EmptyAsciiRuleAccepted` shows the controller can store one.
- `get_all_rules` and `get_rules_by_service_name` (SQL queries that list rows) are not modelled. The console's rules replies are parameters.
- Login, sessions, the authentication middleware and the page controllers are not modelled.
- JSON parsing and serialization are not modelled. A `rule_type` other than the three known ones is `Http.Unknown`; a body that is not JSON is `Http.NotJson`.
- RuleCodec.Atob: accepts only canonical, padded base64. The browser's `atob` also accepts three more forms: whitespace, missing padding, and non-zero unused bits in the last group (`atob("QR==")` is "A"). None of these is modelled. The rules the console decodes come from the controller, whose `BASE64_STANDARD` encoder writes canonical padded base64 only.
- Service names containing jQuery selector characters are not modelled. The selector `#<service>-rules-list` is taken to find the service's list.
- `console.log` and `println!` output is not modelled.
- The markup of the service card and of the option elements is not modelled; `Dom` keeps the service name of each card and the items in it.
