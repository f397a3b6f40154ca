/** The handshake side of ConnectionHandler.cs: `testConnection` sends a GET,
    retries a failed request after a pause (at most `maxRetry` times, by
    starting a fresh instance of itself), and on a reply splits the text
    "<id>:<key>" into the subject identity and the encryption key. The
    coroutine chain is modelled as a state machine over the handler's fields;
    the server's replies are inputs. */
module Handshake {
  import opened Base
  import opened Text

  /** `maxRetry`: how many times a failed GET is repeated. */
  const MaxRetry: int := 3

  /** What the status line shows. */
  datatype Status = Initial | Retrying | GaveUp | Reached

  /** The text `testConnection` writes into the status line for each state it sets. */
  function StatusMessage(s: Status): Option<string> {
    match s
    case Initial => None
    case Retrying => Some("Connection failed. Retrying...")
    case GaveUp => Some("Connection failed. There may be a problem with our servers, try again later.")
    case Reached => Some("Connection successful.")
  }

  /** A finished GET as the coroutine sees it: the request's result and the downloaded text. */
  datatype Reply = Reply(result: HttpResult, body: string)

  /** The handler fields the handshake reads and writes. `awaiting` says that an
      instance of `testConnection` has a GET in flight. */
  datatype HandlerState = HandlerState(
    retryCount: int,
    connectionOK: bool,
    queriedID: Option<string>,
    encryptionKey: Option<string>,
    awaiting: bool,
    status: Status)

  /** The fields just after the first `testConnection` instance has sent its GET. */
  const Start: HandlerState := HandlerState(0, false, None, None, true, Initial)

  /** What holds of the fields at every point of the handshake. */
  predicate Valid(h: HandlerState) {
    && 0 <= h.retryCount <= MaxRetry
    && (h.connectionOK ==> h.queriedID.Some? && h.encryptionKey.Some? && !h.awaiting)
    && (h.status == GaveUp ==> !h.awaiting && !h.connectionOK && h.retryCount == MaxRetry)
  }

  /** `connectionCheck()`: true only once the identity and the key are both stored. */
  function ConnectionCheck(h: HandlerState): (ok: bool)
    ensures Valid(h) && ok ==> h.queriedID.Some? && h.encryptionKey.Some? && !h.awaiting
  {
    h.connectionOK
  }

  /** `getSubjectNumber()`: the stored identity, None while the field is still null. */
  function GetSubjectNumber(h: HandlerState): (id: Option<string>)
    ensures Valid(h) && ConnectionCheck(h) ==> id.Some?
  {
    h.queriedID
  }

  /** The identity taken from a reply: the trimmed text before the first
      colon, or the whole trimmed text when there is none. */
  function ParseIdentity(body: string): (id: string)
    ensures ':' !in id && Unpadded(id, IsDotNetSpace)
    ensures |id| <= |body|
  {
    TrimKeepsAbsent(Before(body, ':'), IsDotNetSpace, ':');
    TrimWith(Before(body, ':'), IsDotNetSpace)
  }

  /** The key taken from a reply: the trimmed text between the first and the
      second colon (or the end); None when the text has no colon. */
  function ParseKey(body: string): (key: Option<string>)
    ensures key.Some? <==> ':' in body
    ensures key.Some? ==> ':' !in key.value && Unpadded(key.value, IsDotNetSpace)
  {
    if ':' in body then
      TrimKeepsAbsent(Before(After(body, ':'), ':'), IsDotNetSpace, ':');
      Some(TrimWith(Before(After(body, ':'), ':'), IsDotNetSpace))
    else None
  }

  /** `ParseIdentity` is what the client computes: element 0 of `Split(':')`,
      trimmed; without a colon that is the whole text, trimmed. */
  lemma ParseIdentityIsFirstPiece(body: string)
    ensures ParseIdentity(body) == TrimWith(Split(body, ':')[0], IsDotNetSpace)
    ensures ':' !in body ==> ParseIdentity(body) == TrimWith(body, IsDotNetSpace)
  {
    SplitHeads(body, ':');
    BeforeAfter(body, ':');
  }

  /** `ParseKey` is what the client computes: element 1 of `Split(':')`,
      trimmed, where a missing element 1 makes the indexing throw (None).
      Because Split cuts at every colon, a key with a colon in it is cut short. */
  lemma ParseKeyIsSecondPiece(body: string)
    ensures var parts := Split(body, ':');
      ParseKey(body) == if |parts| < 2 then None else Some(TrimWith(parts[1], IsDotNetSpace))
  {
    SplitHeads(body, ':');
  }

  lemma NotInConcat(a: string, b: string, c: char)
    requires c !in a && c !in b
    ensures c !in a + b
  {
    forall i | 0 <= i < |a + b| ensures (a + b)[i] != c {
      if i < |a| { assert (a + b)[i] == a[i]; } else { assert (a + b)[i] == b[i - |a|]; }
    }
  }

  /** The identity in a reply "<id> : <key>" with a colon-free, unpadded id is that id. */
  lemma IdentityOfSpacedPair(id: string, key: string)
    requires ':' !in id && Unpadded(id, IsDotNetSpace)
    ensures ParseIdentity(id + " : " + key) == id
  {
    NotInConcat(id, " ", ':');
    assert id + " : " + key == (id + " ") + [':'] + (" " + key);
    BeforeAfterFirst(id + " ", " " + key, ':');
    assert [] + id + " " == id + " ";
    TrimOfPadded([], id, " ", IsDotNetSpace);
  }

  /** The key in a reply "<id> : <key>" with a colon-free id and a colon-free,
      unpadded key is that key. */
  lemma KeyOfSpacedPair(id: string, key: string)
    requires ':' !in id && ':' !in key && Unpadded(key, IsDotNetSpace)
    ensures ParseKey(id + " : " + key) == Some(key)
  {
    NotInConcat(id, " ", ':');
    NotInConcat(" ", key, ':');
    assert id + " : " + key == (id + " ") + [':'] + (" " + key);
    BeforeAfterFirst(id + " ", " " + key, ':');
    BeforeAfter(" " + key, ':');
    assert " " + key + [] == " " + key;
    TrimOfPadded(" ", key, [], IsDotNetSpace);
  }

  /** One instance of `testConnection` receiving the reply to its GET.
      On a connection or protocol error it starts a new instance (a new GET)
      while `retryCount < maxRetry`, else it gives up. Otherwise it stores the
      identity, then the key; with no colon in the text the key lookup throws,
      the instance dies, and `connectionOK` stays false. */
  function Step(h: HandlerState, reply: Reply): (h': HandlerState)
    requires Valid(h) && h.awaiting
    ensures Valid(h')
    // a new GET is started exactly on a failed request within the retry budget
    ensures h'.awaiting <==> IsRequestError(reply.result) && h.retryCount < MaxRetry
    ensures h'.retryCount == h.retryCount + (if h'.awaiting then 1 else 0)
    ensures h'.status == GaveUp <==> IsRequestError(reply.result) && h.retryCount >= MaxRetry
    // a failed request changes neither the identity nor the key
    ensures IsRequestError(reply.result) ==>
      h'.queriedID == h.queriedID && h'.encryptionKey == h.encryptionKey && !h'.connectionOK
    // any other reply stores the identity; the connection is up iff the text has a colon
    ensures !IsRequestError(reply.result) ==>
      h'.queriedID == Some(ParseIdentity(reply.body)) && h'.status == Reached
    ensures h'.connectionOK <==> !IsRequestError(reply.result) && ':' in reply.body
    ensures h'.connectionOK ==> h'.encryptionKey == ParseKey(reply.body)
    ensures !h'.connectionOK ==> h'.encryptionKey == h.encryptionKey
  {
    if reply.result == ConnectionError || reply.result == ProtocolError then
      if h.retryCount < MaxRetry then
        h.(status := Retrying, retryCount := h.retryCount + 1)
      else
        h.(status := GaveUp, awaiting := false)
    else
      var h1 := h.(status := Reached, queriedID := Some(ParseIdentity(reply.body)));
      match ParseKey(reply.body)
      case None => h1.(awaiting := false)
      case Some(key) => h1.(encryptionKey := Some(key), connectionOK := true, awaiting := false)
  }

  /** The state of a handshake once the chain of instances has consumed the
      given replies in order, and how many of them it consumed. */
  datatype Outcome = Outcome(final: HandlerState, answered: nat)

  /** Feeds replies to the pending GET until none is pending or the replies run out. */
  function Run(h: HandlerState, replies: seq<Reply>): (o: Outcome)
    requires Valid(h)
    ensures Valid(o.final)
    ensures o.answered <= |replies|
    // the chain stops early only when no GET is pending
    ensures o.answered < |replies| ==> !o.final.awaiting
    ensures !h.awaiting ==> o == Outcome(h, 0)
    // GETs answered plus the one still pending = the pending one at the start plus the retries
    ensures h.awaiting ==>
      o.answered + (if o.final.awaiting then 1 else 0) == 1 + o.final.retryCount - h.retryCount
    // the answered replies before the last one were all failures
    ensures forall i :: 0 <= i < o.answered - 1 ==> IsRequestError(replies[i].result)
    decreases |replies|
  {
    if !h.awaiting || replies == [] then Outcome(h, 0)
    else
      var h1 := Step(h, replies[0]);
      var o := Run(h1, replies[1..]);
      assert h1.awaiting ==> IsRequestError(replies[0].result);
      Outcome(o.final, o.answered + 1)
  }

  /** Whatever the server does, the handshake issues at most `maxRetry + 1` = 4
      GETs and `retryCount` never exceeds 3. */
  lemma AtMostFourRequests(replies: seq<Reply>)
    ensures Run(Start, replies).final.retryCount <= MaxRetry
    ensures Run(Start, replies).answered
            + (if Run(Start, replies).final.awaiting then 1 else 0) <= MaxRetry + 1
  {
  }

  /** From any pending state, as many failures as the remaining budget allows
      plus one end the handshake in the terminal failure state: no GET pending,
      no connection, and the replies after them are never consumed. */
  lemma {:induction false} FailuresExhaustBudget(h: HandlerState, replies: seq<Reply>)
    requires Valid(h) && h.awaiting
    requires |replies| >= MaxRetry - h.retryCount + 1
    requires forall i :: 0 <= i <= MaxRetry - h.retryCount ==> IsRequestError(replies[i].result)
    ensures Run(h, replies).final.status == GaveUp
    ensures !Run(h, replies).final.connectionOK && !Run(h, replies).final.awaiting
    ensures Run(h, replies).answered == MaxRetry - h.retryCount + 1
    decreases MaxRetry - h.retryCount
  {
    var h1 := Step(h, replies[0]);
    if h.retryCount < MaxRetry {
      FailuresExhaustBudget(h1, replies[1..]);
    }
  }

  /** Four failed GETs in a row from the start: terminal failure after exactly
      four requests, whatever would have come next. */
  lemma FourFailuresGiveUp(replies: seq<Reply>)
    requires |replies| >= MaxRetry + 1
    requires forall i :: 0 <= i <= MaxRetry ==> IsRequestError(replies[i].result)
    ensures Run(Start, replies).final.status == GaveUp
    ensures !ConnectionCheck(Run(Start, replies).final)
    ensures Run(Start, replies).answered == 4 && !Run(Start, replies).final.awaiting
  {
    FailuresExhaustBudget(Start, replies);
  }

  /** The first reply goes to the pending GET, the rest to the chain after it. */
  lemma RunUnfold(h: HandlerState, replies: seq<Reply>)
    requires Valid(h) && h.awaiting && replies != []
    ensures Run(h, replies).final == Run(Step(h, replies[0]), replies[1..]).final
    ensures Run(h, replies).answered == Run(Step(h, replies[0]), replies[1..]).answered + 1
  {
  }

  /** The fields after `n` failed GETs within the budget: a retry is pending. */
  function Retried(h: HandlerState, n: nat): (g: HandlerState)
    requires Valid(h) && h.awaiting && n <= MaxRetry - h.retryCount
    ensures Valid(g) && g.awaiting
  {
    if n == 0 then h else h.(status := Retrying, retryCount := h.retryCount + n)
  }

  /** `n` failures within the budget only count retries: the chain then stands
      where `Retried` says, facing the remaining replies. */
  lemma {:induction false} RunAfterFailures(h: HandlerState, n: nat, replies: seq<Reply>)
    requires Valid(h) && h.awaiting
    requires n <= MaxRetry - h.retryCount && n <= |replies|
    requires forall i :: 0 <= i < n ==> IsRequestError(replies[i].result)
    ensures Run(h, replies).final == Run(Retried(h, n), replies[n..]).final
    ensures Run(h, replies).answered == Run(Retried(h, n), replies[n..]).answered + n
    decreases n
  {
    if n > 0 {
      RunUnfold(h, replies);
      var h1 := Step(h, replies[0]);
      assert h1 == Retried(h, 1);
      assert Retried(h1, n - 1) == Retried(h, n);
      assert replies[1..][n - 1..] == replies[n..];
      RunAfterFailures(h1, n - 1, replies[1..]);
    }
  }

  /** From any pending state, `n` failures within the budget followed by a reply
      carrying "<id>:<key>" connect the client with that identity and key after
      exactly `n + 1` GETs. */
  lemma SucceedsAfterFailures(h: HandlerState, n: nat, replies: seq<Reply>)
    requires Valid(h) && h.awaiting
    requires n <= MaxRetry - h.retryCount && n < |replies|
    requires forall i :: 0 <= i < n ==> IsRequestError(replies[i].result)
    requires !IsRequestError(replies[n].result) && ':' in replies[n].body
    ensures ConnectionCheck(Run(h, replies).final)
    ensures GetSubjectNumber(Run(h, replies).final) == Some(ParseIdentity(replies[n].body))
    ensures Run(h, replies).final.encryptionKey == ParseKey(replies[n].body)
    ensures Run(h, replies).answered == n + 1
  {
    RunAfterFailures(h, n, replies);
    var g, rest := Retried(h, n), replies[n..];
    RunUnfold(g, rest);
    assert rest[0] == replies[n];
    assert !Step(g, replies[n]).awaiting;
  }

  /** Three failures and then a well-formed reply: connected, after four GETs. */
  lemma ThreeFailuresThenSuccess(fail: HttpResult, body: string)
    requires IsRequestError(fail) && ':' in body
    ensures var o := Run(Start, [Reply(fail, ""), Reply(fail, ""), Reply(fail, ""), Reply(Succeeded, body)]);
      && ConnectionCheck(o.final)
      && GetSubjectNumber(o.final) == Some(ParseIdentity(body))
      && o.answered == 4
  {
    SucceedsAfterFailures(Start, 3, [Reply(fail, ""), Reply(fail, ""), Reply(fail, ""), Reply(Succeeded, body)]);
  }

  /** A reply without a colon never connects: the identity is stored, the key
      lookup throws, and no further GET is sent. */
  lemma MalformedReplyStopsHandshake(h: HandlerState, reply: Reply)
    requires Valid(h) && h.awaiting
    requires !IsRequestError(reply.result) && ':' !in reply.body
    ensures !ConnectionCheck(Step(h, reply)) && !Step(h, reply).awaiting
    ensures GetSubjectNumber(Step(h, reply)) == Some(TrimWith(reply.body, IsDotNetSpace))
    ensures Step(h, reply).encryptionKey == h.encryptionKey
  {
    ParseIdentityIsFirstPiece(reply.body);
  }
}
