/**
 * The TCP proxy of one service (src/main.rs): each accepted connection first
 * takes the rule messages waiting on the service's channel into the service's
 * list of rules, then copies bytes in both directions. The copy from the
 * client to the remote server ends the connection, returning 0, as soon as
 * one read holds one of the rules as a contiguous subsequence.
 */
module Proxy {
  import opened Wrappers
  import RuleModel

  /** `BUF_SIZE`: the size of the copy buffer, so the most one read returns. */
  const BufSize := 1024

  /** The needle occurs in the haystack at `i`. */
  predicate MatchAt(haystack: seq<byte>, needle: seq<byte>, i: nat) {
    i + |needle| <= |haystack| && haystack[i..i + |needle|] == needle
  }

  /**
   * `find_subsequence`: the first window of the needle's length equal to the
   * needle. `windows(0)` panics, so the needle may not be empty.
   */
  function FindSubsequence(haystack: seq<byte>, needle: seq<byte>): (r: Option<nat>)
    requires |needle| > 0
    ensures r.Some? ==> MatchAt(haystack, needle, r.value)
    ensures r.Some? ==> forall i :: 0 <= i < r.value ==> !MatchAt(haystack, needle, i)
    ensures r.None? ==> forall i :: 0 <= i ==> !MatchAt(haystack, needle, i)
  {
    FindFrom(haystack, needle, 0)
  }

  /** The first window at or after `start` equal to the needle. */
  function FindFrom(haystack: seq<byte>, needle: seq<byte>, start: nat): (r: Option<nat>)
    requires |needle| > 0
    ensures r.Some? ==> start <= r.value && MatchAt(haystack, needle, r.value)
    ensures r.Some? ==> forall i :: start <= i < r.value ==> !MatchAt(haystack, needle, i)
    ensures r.None? ==> forall i :: start <= i ==> !MatchAt(haystack, needle, i)
    decreases |haystack| - start
  {
    if start + |needle| > |haystack| then None
    else if haystack[start..start + |needle|] == needle then Some(start)
    else FindFrom(haystack, needle, start + 1)
  }

  /** Every rule is non-empty, as `find_subsequence` needs. */
  predicate NonEmptyRules(rules: seq<seq<byte>>) {
    forall i :: 0 <= i < |rules| ==> |rules[i]| > 0
  }

  /** The rule check of one read: some rule is found in it. */
  function Blocked(chunk: seq<byte>, rules: seq<seq<byte>>): (r: bool)
    requires NonEmptyRules(rules)
  {
    rules != [] && (FindSubsequence(chunk, rules[0]).Some? || Blocked(chunk, rules[1..]))
  }

  /** A read is blocked exactly when one of the rules occurs in it. */
  lemma {:induction false} BlockedIff(chunk: seq<byte>, rules: seq<seq<byte>>)
    requires NonEmptyRules(rules)
    ensures Blocked(chunk, rules) <==> exists i, p :: 0 <= i < |rules| && MatchAt(chunk, rules[i], p)
  {
    if rules != [] {
      BlockedIff(chunk, rules[1..]);
      if FindSubsequence(chunk, rules[0]).Some? {
        assert MatchAt(chunk, rules[0], FindSubsequence(chunk, rules[0]).value);
      }
      if exists i, p :: 0 <= i < |rules| && MatchAt(chunk, rules[i], p) {
        var i, p :| 0 <= i < |rules| && MatchAt(chunk, rules[i], p);
        if i > 0 {
          assert rules[1..][i - 1] == rules[i];
        }
      }
      if exists i, p :: 0 <= i < |rules[1..]| && MatchAt(chunk, rules[1..][i], p) {
        var i, p :| 0 <= i < |rules[1..]| && MatchAt(chunk, rules[1..][i], p);
        assert rules[1..][i] == rules[i + 1];
      }
    }
  }

  /** What one `read` on the source socket gives. */
  datatype ReadEvent =
    | Data(bytes: seq<byte>)  // `Ok(n)`: n bytes; n == 0 is the end of the stream
    | Reset                   // a `ConnectionReset` or `ConnectionAborted` error, read as 0 bytes
    | ReadFailure             // any other error
    | Abort                   // the abort channel received before the read completed

  /** The result of `copy_with_abort`; `Open` when the events run out before it returns. */
  datatype CopyResult = Copied(count: nat) | Failed | Open(count: nat)

  datatype CopyOutcome = CopyOutcome(written: seq<byte>, result: CopyResult)

  /** The requirements of a copy on its source and rules. */
  predicate CopyArgs(events: seq<ReadEvent>, isClient: bool, rules: Option<seq<seq<byte>>>) {
    && (forall i :: 0 <= i < |events| && events[i].Data? ==> |events[i].bytes| <= BufSize)
    && (isClient ==> rules.Some? && NonEmptyRules(rules.value))
  }

  /**
   * `copy_with_abort` over a sequence of reads, having already copied
   * `copied` bytes: the bytes written to the destination and the result.
   */
  function Copy(events: seq<ReadEvent>, isClient: bool, rules: Option<seq<seq<byte>>>, copied: nat): CopyOutcome
    requires isClient ==> rules.Some? && NonEmptyRules(rules.value)
    decreases |events|
  {
    if events == [] then CopyOutcome([], Open(copied))
    else match events[0]
      case Abort => CopyOutcome([], Copied(copied))
      case Reset => CopyOutcome([], Copied(copied))
      case ReadFailure => CopyOutcome([], Failed)
      case Data(bytes) =>
        if bytes == [] then CopyOutcome([], Copied(copied))
        else if isClient && Blocked(bytes, rules.value) then CopyOutcome([], Copied(0))
        else
          var rest := Copy(events[1..], isClient, rules, copied + |bytes|);
          CopyOutcome(bytes + rest.written, rest.result)
  }

  /** The outcome of a copy after `prefix` has already been written. */
  function After(prefix: seq<byte>, outcome: CopyOutcome): CopyOutcome {
    CopyOutcome(prefix + outcome.written, outcome.result)
  }

  /** Writing `a` and then `b` before a copy is writing `a + b` before it. */
  lemma {:induction false} AfterAfter(a: seq<byte>, b: seq<byte>, outcome: CopyOutcome)
    ensures After(a, After(b, outcome)) == After(a + b, outcome)
  {
    assert a + (b + outcome.written) == (a + b) + outcome.written;
  }

  /** The copy from read `next` on, by what that read gives. */
  lemma {:induction false} CopyAt(events: seq<ReadEvent>, next: nat, isClient: bool, rules: Option<seq<seq<byte>>>, copied: nat)
    requires next < |events|
    requires isClient ==> rules.Some? && NonEmptyRules(rules.value)
    ensures events[next].Abort? || events[next].Reset? || (events[next].Data? && events[next].bytes == [])
      ==> Copy(events[next..], isClient, rules, copied) == After([], CopyOutcome([], Copied(copied)))
    ensures events[next].ReadFailure? ==> Copy(events[next..], isClient, rules, copied) == After([], CopyOutcome([], Failed))
    ensures events[next].Data? && events[next].bytes != [] && isClient && Blocked(events[next].bytes, rules.value)
      ==> Copy(events[next..], isClient, rules, copied) == After([], CopyOutcome([], Copied(0)))
    ensures events[next].Data? && events[next].bytes != [] && !(isClient && Blocked(events[next].bytes, rules.value))
      ==> (Copy(events[next..], isClient, rules, copied)
           == After(events[next].bytes, Copy(events[next + 1..], isClient, rules, copied + |events[next].bytes|)))
  {
    assert events[next..][0] == events[next];
    assert events[next..][1..] == events[next + 1..];
  }

  /** The loop of `copy_with_abort`, reading into a buffer of `BufSize` bytes. */
  method CopyWithAbort(events: seq<ReadEvent>, isClient: bool, rules: Option<seq<seq<byte>>>)
    returns (written: seq<byte>, result: CopyResult)
    requires CopyArgs(events, isClient, rules)
    ensures CopyOutcome(written, result) == Copy(events, isClient, rules, 0)
  {
    var copied: nat := 0;
    var buf := new byte[BufSize];
    written := [];
    var next := 0;
    while next < |events|
      invariant next <= |events|
      invariant Copy(events, isClient, rules, 0) == After(written, Copy(events[next..], isClient, rules, copied))
      decreases |events| - next
    {
      var event := events[next];
      if event.Abort? || event.Reset? {
        assert Copy(events[next..], isClient, rules, copied) == After([], CopyOutcome([], Copied(copied))) by {
          CopyAt(events, next, isClient, rules, copied);
        }
        return written, Copied(copied);
      }
      if event.ReadFailure? {
        assert Copy(events[next..], isClient, rules, copied) == After([], CopyOutcome([], Failed)) by {
          CopyAt(events, next, isClient, rules, copied);
        }
        return written, Failed;
      }
      var bytesRead := |event.bytes|;
      Fill(buf, event.bytes);
      if bytesRead == 0 {
        assert Copy(events[next..], isClient, rules, copied) == After([], CopyOutcome([], Copied(copied))) by {
          CopyAt(events, next, isClient, rules, copied);
        }
        return written, Copied(copied);
      }
      if isClient {
        var hit := AnyRuleFound(buf[..bytesRead], rules.value);
        if hit {
          assert Copy(events[next..], isClient, rules, copied) == After([], CopyOutcome([], Copied(0))) by {
            CopyAt(events, next, isClient, rules, copied);
          }
          return written, Copied(0);
        }
      }
      ghost var tail := Copy(events[next + 1..], isClient, rules, copied + bytesRead);
      assert Copy(events[next..], isClient, rules, copied) == After(event.bytes, tail) by {
        CopyAt(events, next, isClient, rules, copied);
      }
      assert buf[..bytesRead] == event.bytes;
      AfterAfter(written, event.bytes, tail);
      written := written + buf[..bytesRead];
      copied := copied + bytesRead;
      next := next + 1;
    }
    assert events[next..] == [];
    result := Open(copied);
  }

  /** The `read` of one chunk into the front of the buffer. */
  method Fill(buf: array<byte>, bytes: seq<byte>)
    requires |bytes| <= buf.Length
    modifies buf
    ensures buf[..|bytes|] == bytes
  {
    for k := 0 to |bytes|
      invariant buf[..k] == bytes[..k]
    {
      buf[k] := bytes[k];
    }
  }

  /** The rule loop of `copy_with_abort`: whether some rule is found in the read. */
  method AnyRuleFound(chunk: seq<byte>, ruleSet: seq<seq<byte>>) returns (hit: bool)
    requires NonEmptyRules(ruleSet)
    ensures hit == Blocked(chunk, ruleSet)
  {
    for j := 0 to |ruleSet|
      invariant Blocked(chunk, ruleSet) == Blocked(chunk, ruleSet[j..])
    {
      assert ruleSet[j..][1..] == ruleSet[j + 1..];
      if FindSubsequence(chunk, ruleSet[j]).Some? {
        return true;
      }
    }
    assert ruleSet[|ruleSet|..] == [];
    return false;
  }

  /** The read ends the copy without a rule check. */
  predicate Ends(event: ReadEvent) {
    event.Abort? || event.Reset? || event.ReadFailure? || (event.Data? && event.bytes == [])
  }

  /** The bytes of a run of data reads, in order. */
  function Payload(events: seq<ReadEvent>): seq<byte> {
    if events == [] then []
    else (if events[0].Data? then events[0].bytes else []) + Payload(events[1..])
  }

  /** A read the copy forwards: non-empty data that, for the client, holds no rule. */
  predicate Forwarded(event: ReadEvent, isClient: bool, rules: Option<seq<seq<byte>>>)
    requires isClient ==> rules.Some? && NonEmptyRules(rules.value)
  {
    event.Data? && event.bytes != [] && !(isClient && Blocked(event.bytes, rules.value))
  }

  /**
   * A run of forwarded reads is written unchanged and counted; the copy then
   * goes on from the read after the run.
   */
  lemma {:induction false} CopyRun(events: seq<ReadEvent>, k: nat, isClient: bool,
                                   rules: Option<seq<seq<byte>>>, copied: nat)
    requires isClient ==> rules.Some? && NonEmptyRules(rules.value)
    requires k <= |events|
    requires forall i :: 0 <= i < k ==> Forwarded(events[i], isClient, rules)
    ensures Copy(events, isClient, rules, copied)
      == After(Payload(events[..k]), Copy(events[k..], isClient, rules, copied + |Payload(events[..k])|))
  {
    if k == 0 {
      assert events[..0] == [] && events[0..] == events;
    } else {
      var tail := events[1..];
      var c := copied + |events[0].bytes|;
      assert Copy(tail, isClient, rules, c)
          == After(Payload(tail[..k - 1]), Copy(tail[k - 1..], isClient, rules, c + |Payload(tail[..k - 1])|)) by {
        forall i | 0 <= i < k - 1 ensures Forwarded(tail[i], isClient, rules) {
          assert tail[i] == events[i + 1];
        }
        CopyRun(tail, k - 1, isClient, rules, c);
      }
      assert Forwarded(events[0], isClient, rules);
      CopyRunStep(events, k, isClient, rules, copied);
    }
  }

  /** One step of `CopyRun`: the run starting at the second read, extended by the first. */
  lemma {:induction false} CopyRunStep(events: seq<ReadEvent>, k: nat, isClient: bool,
                                       rules: Option<seq<seq<byte>>>, copied: nat)
    requires isClient ==> rules.Some? && NonEmptyRules(rules.value)
    requires 0 < k <= |events| && Forwarded(events[0], isClient, rules)
    requires var bytes := events[0].bytes;
      Copy(events[1..], isClient, rules, copied + |bytes|)
      == After(Payload(events[1..][..k - 1]), Copy(events[1..][k - 1..], isClient, rules, copied + |bytes| + |Payload(events[1..][..k - 1])|))
    ensures Copy(events, isClient, rules, copied)
      == After(Payload(events[..k]), Copy(events[k..], isClient, rules, copied + |Payload(events[..k])|))
  {
    var bytes := events[0].bytes;
    var tail := events[1..];
    assert Copy(events, isClient, rules, copied) == After(bytes, Copy(tail, isClient, rules, copied + |bytes|)) by {
      CopyAt(events, 0, isClient, rules, copied);
      assert events[0..] == events;
    }
    var p := Payload(tail[..k - 1]);
    assert Payload(events[..k]) == bytes + p by {
      assert events[..k][0] == events[0] && events[..k][1..] == tail[..k - 1];
    }
    assert tail[k - 1..] == events[k..];
    AfterAfter(bytes, p, Copy(events[k..], isClient, rules, copied + |bytes| + |p|));
  }

  /**
   * The copy from the client stops at the first read holding a rule: what
   * was read before it is written, it and everything after are not, and the
   * result is 0 whatever was copied.
   */
  lemma {:induction false} BlockedReadStopsCopy(events: seq<ReadEvent>, k: nat, rules: seq<seq<byte>>)
    requires NonEmptyRules(rules)
    requires k < |events| && events[k].Data? && events[k].bytes != [] && Blocked(events[k].bytes, rules)
    requires forall i :: 0 <= i < k ==> Forwarded(events[i], true, Some(rules))
    ensures Copy(events, true, Some(rules), 0) == CopyOutcome(Payload(events[..k]), Copied(0))
  {
    CopyRun(events, k, true, Some(rules), 0);
    assert events[k..][0] == events[k];
    assert Payload(events[..k]) + [] == Payload(events[..k]);
  }

  /**
   * A copy that stops at the end of the stream, a reset or an abort has
   * written every byte read before, and returns their number.
   */
  lemma {:induction false} EndedCopyCountsBytes(events: seq<ReadEvent>, k: nat, isClient: bool, rules: Option<seq<seq<byte>>>)
    requires isClient ==> rules.Some? && NonEmptyRules(rules.value)
    requires k < |events| && Ends(events[k]) && !events[k].ReadFailure?
    requires forall i :: 0 <= i < k ==> Forwarded(events[i], isClient, rules)
    ensures Copy(events, isClient, rules, 0)
      == CopyOutcome(Payload(events[..k]), Copied(|Payload(events[..k])|))
  {
    CopyRun(events, k, isClient, rules, 0);
    assert events[k..][0] == events[k];
    assert Payload(events[..k]) + [] == Payload(events[..k]);
  }

  /** The count a copy returns is what it wrote, or 0 after a blocked read. */
  lemma {:induction false} CopyCount(events: seq<ReadEvent>, isClient: bool, rules: Option<seq<seq<byte>>>, copied: nat)
    requires isClient ==> rules.Some? && NonEmptyRules(rules.value)
    ensures var out := Copy(events, isClient, rules, copied);
      && (out.result.Open? ==> out.result.count == copied + |out.written|)
      && (out.result.Copied? ==> out.result.count == copied + |out.written| || out.result.count == 0)
    ensures var out := Copy(events, isClient, rules, copied);
      out.result.Copied? && out.result.count != copied + |out.written| ==>
        isClient && (exists k :: 0 <= k < |events| && events[k].Data? && events[k].bytes != []
                                 && Blocked(events[k].bytes, rules.value))
    decreases |events|
  {
    if events != [] && events[0].Data? && events[0].bytes != []
       && !(isClient && Blocked(events[0].bytes, rules.value)) {
      var rest, n := events[1..], copied + |events[0].bytes|;
      CopyCount(rest, isClient, rules, n);
      var out := Copy(rest, isClient, rules, n);
      if out.result.Copied? && out.result.count != n + |out.written| {
        var k :| 0 <= k < |rest| && rest[k].Data? && rest[k].bytes != [] && Blocked(rest[k].bytes, rules.value);
        assert events[k + 1] == rest[k];
      }
    }
  }

  /**
   * The copy towards the client has no rules: it forwards everything it reads,
   * so a run of k non-empty data reads is written unchanged and counted.
   */
  lemma {:induction false} ServerSideForwardsAll(events: seq<ReadEvent>, k: nat, rules: Option<seq<seq<byte>>>, copied: nat)
    requires k <= |events|
    requires forall i :: 0 <= i < k ==> events[i].Data? && events[i].bytes != []
    ensures Copy(events, false, rules, copied) == Copy(events, false, None, copied)
    ensures Copy(events, false, rules, copied)
      == After(Payload(events[..k]), Copy(events[k..], false, None, copied + |Payload(events[..k])|))
    decreases |events|
  {
    if events != [] && events[0].Data? && events[0].bytes != [] {
      ServerSideForwardsAll(events[1..], 0, rules, copied + |events[0].bytes|);
    }
    assert forall i :: 0 <= i < k ==> Forwarded(events[i], false, None);
    CopyRun(events, k, false, None, copied);
  }

  /**
   * Rules are checked per read: a rule split across two reads is not seen
   * and both reads are forwarded.
   */
  lemma {:induction false} SplitRulePassesThrough()
    ensures var rule := [0x41, 0x42];
      Copy([Data([0x30, 0x41]), Data([0x42, 0x30])], true, Some([rule]), 0)
        == CopyOutcome([0x30, 0x41, 0x42, 0x30], Open(4))
  {
    var rule: seq<byte> := [0x41, 0x42];
    var first: seq<byte> := [0x30, 0x41];
    var second: seq<byte> := [0x42, 0x30];
    assert !MatchAt(first, rule, 0) by { assert first[0..2][0] != rule[0]; }
    assert !MatchAt(second, rule, 0) by { assert second[0..2][0] != rule[0]; }
    assert FindSubsequence(first, rule).None?;
    assert FindSubsequence(second, rule).None?;
    assert !Blocked(first, [rule]);
    assert !Blocked(second, [rule]);
    var events := [Data(first), Data(second)];
    assert events[1..] == [Data(second)] && events[1..][1..] == [];
  }

  /** The rules of the drained messages, in order. */
  function RulesOf(messages: seq<RuleModel.ParsedRule>): (r: seq<seq<byte>>)
    requires forall i :: 0 <= i < |messages| ==> messages[i].rule.Some?
    ensures |r| == |messages|
    ensures forall i :: 0 <= i < |messages| ==> r[i] == messages[i].rule.value
  {
    if messages == [] then [] else [messages[0].rule.value] + RulesOf(messages[1..])
  }

  /** `start_service`: one service's proxy task. */
  class ProxyService {
    /** The rules every new connection from a client is checked against. */
    var rules: seq<seq<byte>>

    /** The task as started: no rules. */
    constructor ()
      ensures rules == []
    {
      rules := [];
    }

    /** Every rule is non-empty, so checking a read against it cannot panic. */
    predicate Valid()
      reads this
    {
      NonEmptyRules(rules)
    }

    /**
     * The drain before each connection: every message waiting on the channel
     * has its rule appended, whatever its action.
     */
    method Drain(pending: seq<RuleModel.ParsedRule>)
      requires forall i :: 0 <= i < |pending| ==> pending[i].rule.Some?
      modifies this
      ensures rules == old(rules) + RulesOf(pending)
    {
      var i := 0;
      while i < |pending|
        invariant i <= |pending|
        invariant rules == old(rules) + RulesOf(pending[..i])
      {
        assert pending[..i + 1] == pending[..i] + [pending[i]];
        RulesOfSnoc(pending[..i], pending[i]);
        rules := rules + [pending[i].rule.value];
        i := i + 1;
      }
      assert pending[..i] == pending;
    }

    /**
     * One accepted connection: the drain, the snapshot of the rules the
     * client side is checked against, and the two copies.
     */
    method Connection(pending: seq<RuleModel.ParsedRule>, fromRemote: seq<ReadEvent>, fromClient: seq<ReadEvent>)
      returns (toClient: CopyOutcome, toRemote: CopyOutcome)
      requires Valid()
      requires forall i :: 0 <= i < |pending| ==> pending[i].rule.Some? && |pending[i].rule.value| > 0
      requires CopyArgs(fromRemote, false, None)
      requires forall i :: 0 <= i < |fromClient| && fromClient[i].Data? ==> |fromClient[i].bytes| <= BufSize
      modifies this
      ensures Valid()
      ensures rules == old(rules) + RulesOf(pending)
      ensures toClient == Copy(fromRemote, false, None, 0)
      ensures toRemote == Copy(fromClient, true, Some(rules), 0)
    {
      Drain(pending);
      var snapshot := rules;
      var written, result := CopyWithAbort(fromRemote, false, None);
      toClient := CopyOutcome(written, result);
      written, result := CopyWithAbort(fromClient, true, Some(snapshot));
      toRemote := CopyOutcome(written, result);
    }
  }

  lemma {:induction false} RulesOfSnoc(messages: seq<RuleModel.ParsedRule>, m: RuleModel.ParsedRule)
    requires forall i :: 0 <= i < |messages| ==> messages[i].rule.Some?
    requires m.rule.Some?
    ensures RulesOf(messages + [m]) == RulesOf(messages) + [m.rule.value]
  {
    var all := messages + [m];
    assert forall i :: 0 <= i < |all| ==> all[i].rule.Some?;
    var l, r := RulesOf(all), RulesOf(messages) + [m.rule.value];
    assert |l| == |r|;
    forall i | 0 <= i < |l| ensures l[i] == r[i] {
      if i < |messages| { assert all[i] == messages[i]; } else { assert all[i] == m; }
    }
  }
}
