/** Retrying handlers and transports (httpx/retry.go, httpx/proto.go:204-224). */
module Retries {
  import opened Bytes
  import opened Headers

  const DEFAULT_MAX_ATTEMPTS := 10

  predicate IsIdempotent(verb: string) {
    verb in {"HEAD", "GET", "PUT", "DELETE", "OPTIONS"}
  }

  predicate IsRetriable(status: int) {
    status in {500, 502, 503, 504}
  }

  /** What reaches the client's writer. */
  datatype Event = Head(status: int, header: Header) | Body(p: seq<byte>)

  /** What a handler does in one attempt. */
  datatype Action =
    | SetField(name: string, values: seq<string>)
    | DelField(name: string)
    | CallWriteHeader(status: int)
    | CallWrite(p: seq<byte>)
    | ReadBody(n: nat)  // a Read of the request body that returned n bytes

  // ----- one attempt, as the handler sees it -----

  /** The status that an attempt settles on, and 0 as long as it has none. */
  function Settled(actions: seq<Action>): int {
    if actions == [] then 0
    else
      var (init, last) := (actions[..|actions| - 1], actions[|actions| - 1]);
      if Settled(init) != 0 then Settled(init)
      else match last
        case CallWriteHeader(status) => status
        case CallWrite(_) => 200
        case _ => 0
  }

  /** The header that the attempt has set up. */
  function Fields(actions: seq<Action>): Header {
    if actions == [] then map[]
    else
      var (init, last) := (actions[..|actions| - 1], actions[|actions| - 1]);
      match last
        case SetField(name, values) => Fields(init)[name := values]
        case DelField(name) => Fields(init) - {name}
        case _ => Fields(init)
  }

  /** The header as it was when the status was settled. */
  function FieldsWhenSettled(actions: seq<Action>): Header {
    if actions == [] then map[]
    else
      var init := actions[..|actions| - 1];
      if Settled(init) != 0 then FieldsWhenSettled(init) else Fields(init)
  }

  function Writes(actions: seq<Action>): seq<Event> {
    if actions == [] then []
    else
      var (init, last) := (actions[..|actions| - 1], actions[|actions| - 1]);
      if last.CallWrite? then Writes(init) + [Body(last.p)] else Writes(init)
  }

  // ----- one attempt, as the client sees it -----

  /** Does the action hand the header to the client, when the attempt has the given status before it? */
  predicate Reveals(a: Action, status: int) {
    status == 0 && (a.CallWrite? || (a.CallWriteHeader? && a.status < 500))
  }

  /** What the client receives for it, when its header then is h. */
  function Shown(a: Action, status: int, h: Header): seq<Event> {
    match a
    case CallWriteHeader(code) => if status == 0 && code < 500 then [Head(code, h)] else []
    case CallWrite(p) =>
      if status == 0 then [Head(200, h), Body(p)]
      else if status < 500 then [Body(p)]
      else []
    case _ => []
  }

  /** The header of the client's writer, which was header0 before the attempt. */
  function HeaderAfter(actions: seq<Action>, header0: Header): Header {
    if actions == [] then header0
    else
      var (init, last) := (actions[..|actions| - 1], actions[|actions| - 1]);
      if Reveals(last, Settled(init)) then HeaderAfter(init, header0) + Fields(init) else HeaderAfter(init, header0)
  }

  /** What the client receives while the attempt is made. */
  function Sent(actions: seq<Action>, header0: Header): seq<Event> {
    if actions == [] then []
    else
      var (init, last) := (actions[..|actions| - 1], actions[|actions| - 1]);
      Sent(init, header0) + Shown(last, Settled(init), HeaderAfter(actions, header0))
  }

  function Data(actions: seq<Action>): seq<byte> {
    if actions == [] then []
    else
      var (init, last) := (actions[..|actions| - 1], actions[|actions| - 1]);
      if last.CallWrite? then Data(init) + last.p else Data(init)
  }

  function Reads(actions: seq<Action>): nat {
    if actions == [] then 0
    else
      var (init, last) := (actions[..|actions| - 1], actions[|actions| - 1]);
      Reads(init) + if last.ReadBody? then last.n else 0
  }

  /** No call asks for status 0 before another status is settled. */
  predicate NoZeroBeforeSettled(actions: seq<Action>) {
    forall i :: 0 <= i < |actions| && Settled(actions[..i]) == 0 ==> actions[i] != CallWriteHeader(0)
  }

  /** None of the first n attempts makes such a call. */
  predicate NoneLeaks(handler: nat -> seq<Action>, n: nat) {
    forall k :: 0 <= k < n ==> NoZeroBeforeSettled(handler(k))
  }

  predicate AllFailed(handler: nat -> seq<Action>, n: nat) {
    forall k :: 0 <= k < n ==> Settled(handler(k)) >= 500
  }

  lemma OneMore(handler: nat -> seq<Action>, n: nat)
    ensures NoneLeaks(handler, n + 1) <==> NoneLeaks(handler, n) && NoZeroBeforeSettled(handler(n))
    ensures AllFailed(handler, n + 1) <==> AllFailed(handler, n) && Settled(handler(n)) >= 500
  {
  }

  function BodyBytes(events: seq<Event>): seq<byte> {
    if events == [] then []
    else
      var last := events[|events| - 1];
      BodyBytes(events[..|events| - 1]) + if last.Body? then last.p else []
  }

  lemma {:induction false} WritesCarryData(actions: seq<Action>)
    ensures BodyBytes(Writes(actions)) == Data(actions)
    ensures forall i :: 0 <= i < |Writes(actions)| ==> Writes(actions)[i].Body?
  {
    if actions != [] {
      var init := actions[..|actions| - 1];
      WritesCarryData(init);
      var w := Writes(actions);
      if actions[|actions| - 1].CallWrite? {
        assert w[..|w| - 1] == Writes(init);
      }
    }
  }

  // ----- the writers -----

  /** The http.ResponseWriter of the client. */
  class Client {
    var header: Header
    var log: seq<Event>

    constructor ()
    {
      header, log := map[], [];
    }

    method WriteHeader(status: int)
      modifies this`log
      ensures log == old(log) + [Head(status, header)]
    {
      log := log + [Head(status, header)];
    }

    method Write(p: seq<byte>)
      modifies this`log
      ensures log == old(log) + [Body(p)]
    {
      log := log + [Body(p)];
    }

    method CopyHeader(src: Header)
      modifies this`header
      ensures header == old(header) + src
    {
      header := header + src;
    }
  }

  /** retryResponseWriter, together with the count of the body bytes that were read. */
  class RetryWriter {
    const client: Client
    var status: int
    var header: Header
    var buffer: seq<byte>
    var read: nat

    constructor (client: Client)
      ensures this.client == client && read == 0
    {
      this.client, status, header, buffer, read := client, 0, map[], [], 0;
    }

    method Reset()
      modifies this`status, this`header, this`buffer
      ensures status == 0 && header == map[] && buffer == []
    {
      status, header, buffer := 0, map[], [];
    }

    method WriteHeader(code: int)
      modifies this`status, client
      ensures status == if old(status) == 0 then code else old(status)
      ensures if old(status) == 0 && code < 500
              then client.header == old(client.header) + header
                   && client.log == old(client.log) + [Head(code, client.header)]
              else unchanged(client)
    {
      if status == 0 {
        status := code;
        if status < 500 {
          client.CopyHeader(header);
          client.WriteHeader(status);
        }
      }
    }

    method Write(p: seq<byte>)
      modifies this`status, this`buffer, client
      ensures status == if old(status) == 0 then 200 else old(status)
      ensures status >= 500 ==> buffer == old(buffer) + p && unchanged(client)
      ensures status < 500 ==> buffer == old(buffer)
      ensures status < 500 && old(status) != 0 ==>
                client.header == old(client.header) && client.log == old(client.log) + [Body(p)]
      ensures old(status) == 0 ==>
                client.header == old(client.header) + header
                && client.log == old(client.log) + [Head(200, client.header)] + [Body(p)]
    {
      WriteHeader(200);
      if status >= 500 {
        buffer := buffer + p;
      } else {
        client.Write(p);
      }
    }

    /** Where an attempt stands after actions, when the client had header0 and log0 before it. */
    ghost predicate Stands(actions: seq<Action>, header0: Header, log0: seq<Event>)
      reads this, client
    {
      && status == Settled(actions) && header == Fields(actions)
      && buffer == (if Settled(actions) >= 500 then Data(actions) else [])
      && client.header == HeaderAfter(actions, header0)
      && client.log == log0 + Sent(actions, header0)
    }

    /** Runs one action of a handler. */
    method Perform(a: Action, ghost done: seq<Action>, ghost header0: Header, ghost log0: seq<Event>)
      requires Stands(done, header0, log0)
      modifies this, client
      ensures Stands(done + [a], header0, log0)
      ensures read == old(read) + if a.ReadBody? then a.n else 0
    {
      ghost var log := client.log;
      Step(done, a, header0);
      Associate(log0, Sent(done, header0), Shown(a, Settled(done), HeaderAfter(done + [a], header0)));
      match a {
        case SetField(name, values) => header := header[name := values];
        case DelField(name) => header := header - {name};
        case CallWriteHeader(code) => WriteHeader(code);
        case CallWrite(p) => Write(p);
        case ReadBody(n) => read := read + n;
      }
      assert client.log == log + Shown(a, Settled(done), client.header);
    }
  }

  /** What one action more changes. */
  lemma Step(done: seq<Action>, a: Action, header0: Header)
    ensures var (now, st) := (done + [a], Settled(done));
            && Settled(now)
               == (if st != 0 then st else if a.CallWriteHeader? then a.status else if a.CallWrite? then 200 else 0)
            && Fields(now) == (if a.SetField? then Fields(done)[a.name := a.values]
                               else if a.DelField? then Fields(done) - {a.name} else Fields(done))
            && HeaderAfter(now, header0)
               == (if Reveals(a, st) then HeaderAfter(done, header0) + Fields(done) else HeaderAfter(done, header0))
            && Sent(now, header0) == Sent(done, header0) + Shown(a, st, HeaderAfter(now, header0))
            && Data(now) == Data(done) + (if a.CallWrite? then a.p else [])
            && (st == 0 ==> Data(done) == [])
  {
    var now := done + [a];
    assert now[..|now| - 1] == done && now[|now| - 1] == a;
    if Settled(done) == 0 {
      NoData(done);
    }
  }

  lemma Associate(a: seq<Event>, b: seq<Event>, c: seq<Event>)
    ensures a + (b + c) == a + b + c
  {
  }

  lemma {:induction false} NoData(actions: seq<Action>)
    requires Settled(actions) == 0
    ensures Data(actions) == []
  {
    if actions != [] {
      NoData(actions[..|actions| - 1]);
    }
  }

  // ----- the retry loop -----

  /** The body bytes read in the attempts 0 to k. */
  function ReadsUpTo(handler: nat -> seq<Action>, k: nat): nat {
    Reads(handler(k)) + if k == 0 then 0 else ReadsUpTo(handler, k - 1)
  }

  /** The attempt number k, counted from 0, failed in a way that allows another one. */
  predicate Retriable(handler: nat -> seq<Action>, verb: string, k: nat) {
    IsRetriable(Settled(handler(k))) && IsIdempotent(verb) && ReadsUpTo(handler, k) == 0
  }

  /** It is followed by another one, because the wait between them was not cut short. */
  predicate RetriedAfter(handler: nat -> seq<Action>, verb: string, canceled: nat -> bool, k: nat) {
    Retriable(handler, verb, k) && !canceled(k + 1)
  }

  function Limit(maxAttempts: int): int {
    if maxAttempts == 0 then DEFAULT_MAX_ATTEMPTS else maxAttempts
  }

  /** What the client has received is the response of one attempt and of no other. */
  ghost predicate IsResponse(actions: seq<Action>, header0: Header, events: seq<Event>) {
    var st := Settled(actions);
    var fields := if st < 500 then FieldsWhenSettled(actions) else Fields(actions);
    && |events| >= 1 && events[0] == Head(st, header0 + fields)
    && BodyBytes(events[1..]) == Data(actions)
    && forall i :: 1 <= i < |events| ==> events[i].Body?
  }

  /** It has received that response, or nothing if the attempt neither wrote nor chose a status. */
  ghost predicate Received(actions: seq<Action>, header0: Header, events: seq<Event>) {
    if Settled(actions) == 0 then events == [] else IsResponse(actions, header0, events)
  }

  /** The header of the client's writer before the attempt number k. */
  function HeaderBefore(handler: nat -> seq<Action>, k: nat, header0: Header): Header {
    if k == 0 then header0 else HeaderAfter(handler(k - 1), HeaderBefore(handler, k - 1, header0))
  }

  /** All that the client has received before the attempt number k, when it had received log0 at first. */
  function LogBefore(handler: nat -> seq<Action>, k: nat, header0: Header, log0: seq<Event>): seq<Event> {
    if k == 0 then log0
    else LogBefore(handler, k - 1, header0, log0) + Sent(handler(k - 1), HeaderBefore(handler, k - 1, header0))
  }

  /** What the buffered response of a failed attempt adds to it. */
  function Replayed(actions: seq<Action>, header0: Header): seq<Event> {
    if Settled(actions) < 500 then []
    else
      [Head(Settled(actions), HeaderAfter(actions, header0) + Fields(actions))]
      + if Data(actions) == [] then [] else [Body(Data(actions))]
  }

  /** And in the end, when n is the last attempt. */
  function LogAfter(handler: nat -> seq<Action>, n: nat, header0: Header, log0: seq<Event>): seq<Event> {
    LogBefore(handler, n + 1, header0, log0) + Replayed(handler(n), HeaderBefore(handler, n, header0))
  }

  /**
   RetryHandler.ServeHTTP. Every attempt before the last failed in a way that may
   be retried, the number of attempts is bounded, and the loop ends only for one
   of its reasons. The client receives one header and the body of the last
   attempt, or nothing at all if that neither wrote nor chose a status, and
   nothing of the attempts before it, exactly if no attempt called
   WriteHeader(0) before it settled on a status.
   */
  method ServeHTTP(client: Client, handler: nat -> seq<Action>, verb: string, maxAttempts: int, canceled: nat -> bool)
    returns (attempts: nat)
    modifies client
    ensures 1 <= attempts && (attempts == 1 || attempts <= Limit(maxAttempts))
    ensures forall k :: 0 <= k < attempts - 1 ==> RetriedAfter(handler, verb, canceled, k)
    ensures Retriable(handler, verb, attempts - 1) ==> attempts >= Limit(maxAttempts) || canceled(attempts)
    ensures Conducted(handler, verb, maxAttempts, canceled, attempts)
    ensures client.log == LogAfter(handler, attempts - 1, old(client.header), old(client.log))
    ensures old(client.log) <= client.log
    ensures Received(handler(attempts - 1), old(client.header), client.log[|old(client.log)|..])
       <==> NoneLeaks(handler, attempts)
  {
    ghost var header0, log0 := client.header, client.log;
    attempts := Serve(client, handler, verb, maxAttempts, canceled);
    IsConducted(handler, verb, maxAttempts, canceled, attempts);
    Concluded(log0, handler, verb, canceled, attempts - 1, header0);
  }

  predicate MayRepeat(verb: string) {
    verb in {"HEAD", "GET", "PUT", "DELETE", "OPTIONS"}
  }

  predicate MayPass(status: int) {
    status in {500, 502, 503, 504}
  }

  /**
   Every attempt but the last ended with one of the statuses, with no body byte read
   so far and a wait that was not cut short; a second one takes one of the methods;
   and after the last that was not so, or the number was reached, which is ten if
   none is given.
   */
  ghost predicate Conducted(handler: nat -> seq<Action>, verb: string, maxAttempts: int, canceled: nat -> bool,
                            n: nat)
  {
    && n >= 1 && (n == 1 || n <= if maxAttempts == 0 then 10 else maxAttempts)
    && (n > 1 ==> MayRepeat(verb))
    && (forall k {:trigger MayPass(Settled(handler(k)))} :: 0 <= k < n - 1 ==>
         MayPass(Settled(handler(k))) && ReadsUpTo(handler, k) == 0 && !canceled(k + 1))
    && (MayRepeat(verb) && MayPass(Settled(handler(n - 1))) && ReadsUpTo(handler, n - 1) == 0
        ==> n >= (if maxAttempts == 0 then 10 else maxAttempts) || canceled(n))
  }

  lemma IsConducted(handler: nat -> seq<Action>, verb: string, maxAttempts: int, canceled: nat -> bool, n: nat)
    requires n >= 1 && (n == 1 || n <= Limit(maxAttempts))
    requires forall k :: 0 <= k < n - 1 ==> RetriedAfter(handler, verb, canceled, k)
    requires Retriable(handler, verb, n - 1) ==> n >= Limit(maxAttempts) || canceled(n)
    ensures Conducted(handler, verb, maxAttempts, canceled, n)
  {
    forall k | 0 <= k < n - 1
      ensures MayRepeat(verb) && MayPass(Settled(handler(k))) && ReadsUpTo(handler, k) == 0 && !canceled(k + 1)
    {
      assert RetriedAfter(handler, verb, canceled, k);
    }
    if n > 1 {
      assert RetriedAfter(handler, verb, canceled, 0);
    }
    RetriableMeans(handler, verb, n - 1);
  }

  lemma RetriableMeans(handler: nat -> seq<Action>, verb: string, k: nat)
    ensures MayRepeat(verb) && MayPass(Settled(handler(k))) && ReadsUpTo(handler, k) == 0
       <==> Retriable(handler, verb, k)
  {
  }

  /** The same, with nothing but the log as its result. */
  method Serve(client: Client, handler: nat -> seq<Action>, verb: string, maxAttempts: int, canceled: nat -> bool)
    returns (attempts: nat)
    modifies client
    ensures 1 <= attempts && (attempts == 1 || attempts <= Limit(maxAttempts))
    ensures forall k :: 0 <= k < attempts - 1 ==> RetriedAfter(handler, verb, canceled, k)
    ensures Retriable(handler, verb, attempts - 1) ==> attempts >= Limit(maxAttempts) || canceled(attempts)
    ensures client.log == LogAfter(handler, attempts - 1, old(client.header), old(client.log))
  {
    ghost var header0, log0 := client.header, client.log;
    var res := new RetryWriter(client);
    attempts := TryAttempts(res, handler, verb, maxAttempts, canceled);
    SendBuffered(res, handler(attempts - 1), HeaderBefore(handler, attempts - 1, header0));
    LogIsComplete(handler, attempts - 1, header0, log0);
  }

  /** The loop, up to the last attempt. */
  method TryAttempts(res: RetryWriter, handler: nat -> seq<Action>, verb: string, maxAttempts: int,
                     canceled: nat -> bool)
    returns (attempts: nat)
    requires res.read == 0
    modifies res, res.client
    ensures 1 <= attempts && (attempts == 1 || attempts <= Limit(maxAttempts))
    ensures forall k :: 0 <= k < attempts - 1 ==> RetriedAfter(handler, verb, canceled, k)
    ensures Retriable(handler, verb, attempts - 1) ==> attempts >= Limit(maxAttempts) || canceled(attempts)
    ensures var (h, log) := (old(res.client.header), old(res.client.log));
            res.Stands(handler(attempts - 1), HeaderBefore(handler, attempts - 1, h),
                       LogBefore(handler, attempts - 1, h, log))
  {
    ghost var header0, log0 := res.client.header, res.client.log;
    var max := if maxAttempts == 0 then DEFAULT_MAX_ATTEMPTS else maxAttempts;
    attempts := 0;
    while true
      invariant attempts == 0 || attempts < max
      invariant res.client.header == HeaderBefore(handler, attempts, header0)
      invariant res.client.log == LogBefore(handler, attempts, header0, log0)
      invariant res.read == if attempts == 0 then 0 else ReadsUpTo(handler, attempts - 1)
      invariant forall k :: 0 <= k < attempts ==> RetriedAfter(handler, verb, canceled, k)
      decreases max - attempts
    {
      var again := TryOnce(res, handler, verb, attempts, header0, log0);
      attempts := attempts + 1;
      if !again || attempts >= max || canceled(attempts) {
        return;
      }
    }
  }

  /** One round of the loop, and whether it may be followed by another one. */
  method TryOnce(res: RetryWriter, handler: nat -> seq<Action>, verb: string, k: nat,
                 ghost header0: Header, ghost log0: seq<Event>)
    returns (again: bool)
    requires res.client.header == HeaderBefore(handler, k, header0)
    requires res.client.log == LogBefore(handler, k, header0, log0)
    requires res.read == if k == 0 then 0 else ReadsUpTo(handler, k - 1)
    modifies res, res.client
    ensures res.Stands(handler(k), HeaderBefore(handler, k, header0), LogBefore(handler, k, header0, log0))
    ensures res.client.header == HeaderBefore(handler, k + 1, header0)
    ensures res.client.log == LogBefore(handler, k + 1, header0, log0)
    ensures res.read == ReadsUpTo(handler, k)
    ensures again == Retriable(handler, verb, k)
  {
    res.Reset();
    Attempt(res, handler(k), res.client.header, res.client.log);
    if res.status < 500 {
      return false;
    }
    if res.read != 0 {
      return false;
    }
    if !IsRetriable(res.status) {
      return false;
    }
    return IsIdempotent(verb);
  }

  /** All attempts before the last one failed, or else they would not have been retried. */
  lemma Concluded(log0: seq<Event>, handler: nat -> seq<Action>, verb: string, canceled: nat -> bool, n: nat,
                  header0: Header)
    requires forall k :: 0 <= k < n ==> RetriedAfter(handler, verb, canceled, k)
    ensures var log := LogAfter(handler, n, header0, log0);
            log0 <= log && (Received(handler(n), header0, log[|log0|..]) <==> NoneLeaks(handler, n + 1))
  {
    forall k | 0 <= k < n ensures Settled(handler(k)) >= 500 {
      assert RetriedAfter(handler, verb, canceled, k);
    }
    IsolationIsExact(handler, n, header0);
    LogGrows(handler, n, header0, log0);
  }

  lemma LogIsComplete(handler: nat -> seq<Action>, n: nat, header0: Header, log0: seq<Event>)
    ensures var h := HeaderBefore(handler, n, header0);
            LogBefore(handler, n, header0, log0) + Sent(handler(n), h) + Replayed(handler(n), h)
            == LogAfter(handler, n, header0, log0)
  {
  }

  lemma LogGrows(handler: nat -> seq<Action>, n: nat, header0: Header, log0: seq<Event>)
    ensures LogAfter(handler, n, header0, log0) == log0 + LogAfter(handler, n, header0, [])
  {
    LogBehind(handler, n + 1, header0, log0);
    Associate(log0, LogBefore(handler, n + 1, header0, []), Replayed(handler(n), HeaderBefore(handler, n, header0)));
  }

  lemma {:induction false} LogBehind(handler: nat -> seq<Action>, k: nat, header0: Header, log0: seq<Event>)
    ensures LogBefore(handler, k, header0, log0) == log0 + LogBefore(handler, k, header0, [])
  {
    if k == 0 {
      assert log0 + [] == log0;
    } else {
      LogBehind(handler, k - 1, header0, log0);
      var sent := Sent(handler(k - 1), HeaderBefore(handler, k - 1, header0));
      Associate(log0, LogBefore(handler, k - 1, header0, []), sent);
    }
  }

  /** The response of a failed attempt, which was buffered, goes to the client after all. */
  method SendBuffered(res: RetryWriter, ghost actions: seq<Action>, ghost header0: Header)
    requires res.status == Settled(actions) && res.header == Fields(actions)
    requires res.status >= 500 ==> res.buffer == Data(actions)
    requires res.client.header == HeaderAfter(actions, header0)
    modifies res.client
    ensures res.client.log == old(res.client.log) + Replayed(actions, header0)
  {
    if res.status < 500 {
      return;
    }
    res.client.CopyHeader(res.header);
    res.client.WriteHeader(res.status);
    if res.buffer != [] {
      res.client.Write(res.buffer);
    }
  }

  /** The handler runs once on a writer that was reset. */
  method Attempt(res: RetryWriter, actions: seq<Action>, ghost header0: Header, ghost log0: seq<Event>)
    requires res.status == 0 && res.header == map[] && res.buffer == []
    requires res.client.header == header0 && res.client.log == log0
    modifies res, res.client
    ensures res.Stands(actions, header0, log0)
    ensures res.read == old(res.read) + Reads(actions)
  {
    assert log0 + [] == log0;
    for i := 0 to |actions|
      invariant res.Stands(actions[..i], header0, log0)
      invariant res.read == old(res.read) + Reads(actions[..i])
    {
      assert actions[..i + 1] == actions[..i] + [actions[i]];
      assert actions[..i + 1][..i] == actions[..i];
      res.Perform(actions[i], actions[..i], header0, log0);
    }
    assert actions[..|actions|] == actions;
  }

  // ----- isolation -----

  function Heads(events: seq<Event>): nat {
    if events == [] then 0
    else Heads(events[..|events| - 1]) + if events[|events| - 1].Head? then 1 else 0
  }

  lemma {:induction false} HeadsAppend(a: seq<Event>, b: seq<Event>)
    ensures Heads(a + b) == Heads(a) + Heads(b)
  {
    if b == [] {
      assert a + b == a;
    } else {
      var init := b[..|b| - 1];
      assert (a + b)[..|a + b| - 1] == a + init;
      HeadsAppend(a, init);
    }
  }

  lemma {:induction false} OnlyBodies(events: seq<Event>)
    requires forall i :: 0 <= i < |events| ==> events[i].Body?
    ensures Heads(events) == 0
  {
    if events != [] {
      OnlyBodies(events[..|events| - 1]);
    }
  }

  /** A response has one header, and so much the client receives only once. */
  lemma ReceivedHeads(actions: seq<Action>, header0: Header, events: seq<Event>)
    requires Received(actions, header0, events)
    ensures Heads(events) == if Settled(actions) == 0 then 0 else 1
  {
    if Settled(actions) != 0 {
      assert events == [events[0]] + events[1..];
      HeadsAppend([events[0]], events[1..]);
      OnlyBodies(events[1..]);
      assert [events[0]][..0] == [];
    }
  }

  lemma InitIsQuiet(actions: seq<Action>)
    requires actions != []
    ensures var (init, last) := (actions[..|actions| - 1], actions[|actions| - 1]);
            NoZeroBeforeSettled(actions)
            <==> NoZeroBeforeSettled(init) && (Settled(init) == 0 ==> last != CallWriteHeader(0))
  {
    var init := actions[..|actions| - 1];
    assert forall i :: 0 <= i < |init| ==> init[..i] == actions[..i];
  }

  /** An attempt shows the client one header if it settled below 500, and one more for every call that leaks. */
  lemma {:induction false} HeadsOfSent(actions: seq<Action>, header0: Header)
    ensures var due := if Settled(actions) == 0 || Settled(actions) >= 500 then 0 else 1;
            Heads(Sent(actions, header0)) >= due
            && (Heads(Sent(actions, header0)) == due <==> NoZeroBeforeSettled(actions))
  {
    if actions != [] {
      var (init, last) := (actions[..|actions| - 1], actions[|actions| - 1]);
      HeadsOfSent(init, header0);
      InitIsQuiet(actions);
      var shown := Shown(last, Settled(init), HeaderAfter(actions, header0));
      HeadsAppend(Sent(init, header0), shown);
      HeadsOfShown(last, Settled(init), HeaderAfter(actions, header0));
    }
  }

  lemma HeadsOfShown(a: Action, status: int, h: Header)
    ensures Heads(Shown(a, status, h)) == if Reveals(a, status) then 1 else 0
  {
    var shown := Shown(a, status, h);
    if |shown| == 2 {
      assert shown == [shown[0]] + [shown[1]];
      HeadsAppend([shown[0]], [shown[1]]);
      HeadsOfOne([shown[0]]);
      HeadsOfOne([shown[1]]);
    } else {
      HeadsOfOne(shown);
    }
  }

  lemma HeadsOfOne(events: seq<Event>)
    requires |events| <= 1
    ensures Heads(events) == if events != [] && events[0].Head? then 1 else 0
  {
    if events != [] {
      assert events[..0] == [];
    }
  }

  /** An attempt without such a call that has no answer for the client shows it nothing. */
  lemma {:induction false} QuietFailure(actions: seq<Action>, header0: Header)
    requires NoZeroBeforeSettled(actions) && (Settled(actions) == 0 || Settled(actions) >= 500)
    ensures HeaderAfter(actions, header0) == header0 && Sent(actions, header0) == []
    ensures Settled(actions) == 0 ==> Writes(actions) == []
  {
    if actions != [] {
      InitIsQuiet(actions);
      QuietFailure(actions[..|actions| - 1], header0);
    }
  }

  /** One that has an answer shows its header, and then what is written. */
  lemma {:induction false} QuietAnswer(actions: seq<Action>, header0: Header)
    requires NoZeroBeforeSettled(actions) && 0 != Settled(actions) < 500
    ensures var h := header0 + FieldsWhenSettled(actions);
            && HeaderAfter(actions, header0) == h
            && Sent(actions, header0) == [Head(Settled(actions), h)] + Writes(actions)
  {
    var (init, last) := (actions[..|actions| - 1], actions[|actions| - 1]);
    var h := header0 + FieldsWhenSettled(actions);
    InitIsQuiet(actions);
    if Settled(init) == 0 {
      QuietFailure(init, header0);
      assert [] + Shown(last, 0, h) == Shown(last, 0, h);
    } else {
      QuietAnswer(init, header0);
      Associate([Head(Settled(actions), h)], Writes(init), Shown(last, Settled(init), h));
      assert Writes(init) + [] == Writes(init);
    }
  }

  lemma {:induction false} QuietBefore(handler: nat -> seq<Action>, n: nat, header0: Header)
    requires NoneLeaks(handler, n) && AllFailed(handler, n)
    ensures HeaderBefore(handler, n, header0) == header0 && LogBefore(handler, n, header0, []) == []
  {
    if n > 0 {
      OneMore(handler, n - 1);
      QuietBefore(handler, n - 1, header0);
      QuietFailure(handler(n - 1), header0);
    }
  }

  lemma {:induction false} HeadsBefore(handler: nat -> seq<Action>, n: nat, header0: Header)
    requires AllFailed(handler, n)
    ensures Heads(LogBefore(handler, n, header0, [])) == 0 <==> NoneLeaks(handler, n)
  {
    if n > 0 {
      OneMore(handler, n - 1);
      HeadsBefore(handler, n - 1, header0);
      HeadsOfFailure(LogBefore(handler, n - 1, header0, []), handler(n - 1), HeaderBefore(handler, n - 1, header0));
    }
  }

  lemma HeadsOfFailure(before: seq<Event>, actions: seq<Action>, h: Header)
    requires Settled(actions) >= 500
    ensures Heads(before + Sent(actions, h)) == 0 <==> Heads(before) == 0 && NoZeroBeforeSettled(actions)
  {
    HeadsOfSent(actions, h);
    HeadsAppend(before, Sent(actions, h));
  }

  /**
   When all attempts before the number n failed, the client receives the response
   of the attempt n and nothing else exactly if no attempt called WriteHeader(0)
   before it settled on a status.
   */
  lemma IsolationIsExact(handler: nat -> seq<Action>, n: nat, header0: Header)
    requires AllFailed(handler, n)
    ensures Received(handler(n), header0, LogAfter(handler, n, header0, [])) <==> NoneLeaks(handler, n + 1)
  {
    OneMore(handler, n);
    if NoneLeaks(handler, n + 1) {
      QuietLog(handler, n, header0);
    } else if Received(handler(n), header0, LogAfter(handler, n, header0, [])) {
      ReceivedHeads(handler(n), header0, LogAfter(handler, n, header0, []));
      HeadsOfLog(handler, n, header0);
      HeadsBefore(handler, n, header0);
      assert false;
    }
  }

  lemma QuietLog(handler: nat -> seq<Action>, n: nat, header0: Header)
    requires NoneLeaks(handler, n) && AllFailed(handler, n) && NoZeroBeforeSettled(handler(n))
    ensures Received(handler(n), header0, LogAfter(handler, n, header0, []))
  {
    OneMore(handler, n);
    QuietBefore(handler, n, header0);
    QuietResponse(handler(n), header0);
    assert LogBefore(handler, n + 1, header0, []) == [] + Sent(handler(n), header0) == Sent(handler(n), header0);
  }

  lemma QuietResponse(actions: seq<Action>, header0: Header)
    requires NoZeroBeforeSettled(actions)
    ensures Received(actions, header0, Sent(actions, header0) + Replayed(actions, header0))
  {
    if 0 != Settled(actions) < 500 {
      AnswerIsResponse(actions, header0);
    } else {
      FailureIsResponse(actions, header0);
    }
  }

  lemma AnswerIsResponse(actions: seq<Action>, header0: Header)
    requires NoZeroBeforeSettled(actions) && 0 != Settled(actions) < 500
    ensures IsResponse(actions, header0, Sent(actions, header0) + Replayed(actions, header0))
  {
    QuietAnswer(actions, header0);
    WritesCarryData(actions);
    IsOneResponse(actions, header0, Writes(actions));
    assert Sent(actions, header0) + [] == Sent(actions, header0);
  }

  lemma FailureIsResponse(actions: seq<Action>, header0: Header)
    requires NoZeroBeforeSettled(actions) && (Settled(actions) == 0 || Settled(actions) >= 500)
    ensures Received(actions, header0, Sent(actions, header0) + Replayed(actions, header0))
  {
    QuietFailure(actions, header0);
    assert [] + Replayed(actions, header0) == Replayed(actions, header0);
    if Settled(actions) >= 500 {
      var body := if Data(actions) == [] then [] else [Body(Data(actions))];
      assert body != [] ==> body[..0] == [];
      IsOneResponse(actions, header0, body);
    }
  }

  lemma IsOneResponse(actions: seq<Action>, header0: Header, body: seq<Event>)
    requires Settled(actions) != 0
    requires BodyBytes(body) == Data(actions) && forall i :: 0 <= i < |body| ==> body[i].Body?
    ensures var fields := if Settled(actions) < 500 then FieldsWhenSettled(actions) else Fields(actions);
            IsResponse(actions, header0, [Head(Settled(actions), header0 + fields)] + body)
  {
    var fields := if Settled(actions) < 500 then FieldsWhenSettled(actions) else Fields(actions);
    var events := [Head(Settled(actions), header0 + fields)] + body;
    assert events[1..] == body;
  }

  /** One header too many for every attempt that leaks. */
  lemma HeadsOfLog(handler: nat -> seq<Action>, n: nat, header0: Header)
    ensures var due := if Settled(handler(n)) == 0 then 0 else 1;
            && Heads(LogAfter(handler, n, header0, [])) >= Heads(LogBefore(handler, n, header0, [])) + due
            && (Heads(LogAfter(handler, n, header0, [])) == Heads(LogBefore(handler, n, header0, [])) + due
                <==> NoZeroBeforeSettled(handler(n)))
  {
    var h := HeaderBefore(handler, n, header0);
    HeadsOfSent(handler(n), h);
    HeadsOfReplayed(handler(n), h);
    HeadsOfThree(LogBefore(handler, n, header0, []), Sent(handler(n), h), Replayed(handler(n), h));
    LogIsComplete(handler, n, header0, []);
  }

  lemma HeadsOfThree(a: seq<Event>, b: seq<Event>, c: seq<Event>)
    ensures Heads(a + b + c) == Heads(a) + Heads(b) + Heads(c)
  {
    HeadsAppend(a + b, c);
    HeadsAppend(a, b);
  }

  lemma HeadsOfReplayed(actions: seq<Action>, h: Header)
    ensures Heads(Replayed(actions, h)) == if Settled(actions) >= 500 then 1 else 0
  {
    var more := Replayed(actions, h);
    if more != [] {
      assert more == [more[0]] + more[1..];
      HeadsAppend([more[0]], more[1..]);
      HeadsOfOne([more[0]]);
      HeadsOfOne(more[1..]);
    }
  }

  /**
   Through the whole handler: a first attempt that calls WriteHeader(0) and then
   fails shows in front of the response of the second.
   */
  method ZeroStatusIsSentTwice(client: Client) returns (attempts: nat)
    modifies client
    ensures attempts == 2
    ensures client.log == old(client.log) + [Head(0, old(client.header)), Head(200, old(client.header)), Body([])]
  {
    var handler := (k: nat) => if k == 0 then LEAKING else ANSWERING;
    LeakingAttempt(client.header);
    AnsweringAttempt(client.header);
    attempts := ServeHTTP(client, handler, "GET", 2, (k: nat) => false);
    assert Retriable(handler, "GET", 0);
    ghost var h := old(client.header);
    LeakingLog(handler, h, old(client.log));
  }

  lemma LeakingLog(handler: nat -> seq<Action>, h: Header, log: seq<Event>)
    requires handler(0) == LEAKING && handler(1) == ANSWERING
    ensures LogAfter(handler, 1, h, log) == log + [Head(0, h), Head(200, h), Body([])]
  {
    LeakingAttempt(h);
    AnsweringAttempt(h);
    assert HeaderBefore(handler, 0, h) == h;
    assert HeaderBefore(handler, 1, h) == h;
    assert LogBefore(handler, 0, h, log) == log;
    assert LogBefore(handler, 1, h, log) == log + [Head(0, h)];
    assert LogBefore(handler, 2, h, log) == log + [Head(0, h)] + [Head(200, h), Body([])];
  }

  const LEAKING := [CallWriteHeader(0), CallWriteHeader(500)]
  const ANSWERING: seq<Action> := [CallWrite([])]

  lemma LeakingAttempt(h: Header)
    ensures Settled(LEAKING) == 500 && Reads(LEAKING) == 0
    ensures HeaderAfter(LEAKING, h) == h && Sent(LEAKING, h) == [Head(0, h)]
  {
    var first := LEAKING[..1];
    assert first == [CallWriteHeader(0)] && first[..0] == [];
    assert Settled(first) == 0 && Reads(first) == 0;
    assert HeaderAfter(first, h) == h && Sent(first, h) == [Head(0, h)];
  }

  lemma AnsweringAttempt(h: Header)
    ensures Settled(ANSWERING) == 200 && Replayed(ANSWERING, h) == []
    ensures Sent(ANSWERING, h) == [Head(200, h), Body([])]
  {
    assert ANSWERING[..0] == [];
    assert HeaderAfter(ANSWERING, h) == h + map[] == h;
    assert [] + Shown(ANSWERING[0], 0, h) == Shown(ANSWERING[0], 0, h);
  }

  // ----- the transport -----

  /** What one RoundTrip of the sub-transport does: it fails, or it gets a response. */
  datatype Trip = Trip(failed: bool, status: int, read: nat)

  datatype TripError = NoError | BodySent | NotIdempotent | Exhausted | Canceled

  predicate Succeeds(t: Trip) {
    !t.failed && (t.status < 500 || !IsRetriable(t.status))
  }

  function TripReads(trips: nat -> Trip, k: nat): nat {
    trips(k).read + if k == 0 then 0 else TripReads(trips, k - 1)
  }

  predicate TripRetried(trips: nat -> Trip, verb: string, canceled: nat -> bool, k: nat) {
    !Succeeds(trips(k)) && TripReads(trips, k) == 0 && IsIdempotent(verb) && !canceled(k + 1)
  }

  predicate TripMayPass(t: Trip) {
    t.failed || t.status in {500, 502, 503, 504}
  }

  lemma SucceedsMeans(t: Trip)
    ensures Succeeds(t) <==> !TripMayPass(t)
  {
  }

  /** The first n attempts failed in a way that may pass, with no body byte read and a wait that was not cut short. */
  ghost predicate TripsConducted(trips: nat -> Trip, verb: string, canceled: nat -> bool, n: nat) {
    && (n > 0 ==> MayRepeat(verb))
    && forall k {:trigger TripMayPass(trips(k))} :: 0 <= k < n ==>
         TripMayPass(trips(k)) && TripReads(trips, k) == 0 && !canceled(k + 1)
  }

  lemma TripsMean(trips: nat -> Trip, verb: string, canceled: nat -> bool, n: nat)
    requires forall k :: 0 <= k < n ==> TripRetried(trips, verb, canceled, k)
    ensures TripsConducted(trips, verb, canceled, n)
    ensures Succeeds(trips(n)) <==> !TripMayPass(trips(n))
  {
    forall k | 0 <= k < n
      ensures TripMayPass(trips(k)) && TripReads(trips, k) == 0 && !canceled(k + 1)
    {
      assert TripRetried(trips, verb, canceled, k);
      SucceedsMeans(trips(k));
    }
    SucceedsMeans(trips(n));
    if n > 0 {
      assert TripRetried(trips, verb, canceled, 0);
    }
  }

  /**
   RetryTransport.RoundTrip. Every attempt before the last failed, on an
   idempotent method and before any byte of the body was read; the error is the
   first reason why the last attempt was not followed by another one.
   */
  method RoundTrip(trips: nat -> Trip, verb: string, maxAttempts: int, canceled: nat -> bool)
    returns (attempts: nat, err: TripError)
    ensures 1 <= attempts && (attempts == 1 || attempts <= Limit(maxAttempts))
    ensures forall k :: 0 <= k < attempts - 1 ==> TripRetried(trips, verb, canceled, k)
    ensures err == if Succeeds(trips(attempts - 1)) then NoError
                   else if TripReads(trips, attempts - 1) != 0 then BodySent
                   else if !IsIdempotent(verb) then NotIdempotent
                   else if attempts >= Limit(maxAttempts) then Exhausted else Canceled
    ensures err == Canceled ==> canceled(attempts)
    ensures attempts == 1 || attempts <= if maxAttempts == 0 then 10 else maxAttempts
    ensures TripsConducted(trips, verb, canceled, attempts - 1)
    ensures err == NoError <==> !TripMayPass(trips(attempts - 1))
  {
    var read := 0;
    var max := if maxAttempts == 0 then DEFAULT_MAX_ATTEMPTS else maxAttempts;
    attempts := 0;
    while true
      invariant attempts == 0 || attempts < max
      invariant read == if attempts == 0 then 0 else TripReads(trips, attempts - 1)
      invariant forall k :: 0 <= k < attempts ==> TripRetried(trips, verb, canceled, k)
      decreases max - attempts
    {
      var t := trips(attempts);
      read := read + t.read;
      TripsMean(trips, verb, canceled, attempts);
      assert read == TripReads(trips, attempts);
      attempts := attempts + 1;
      if !t.failed {
        if t.status < 500 || !IsRetriable(t.status) {
          assert Succeeds(t);
          return attempts, NoError;
        }
      }
      assert !Succeeds(t);
      if read != 0 {
        return attempts, BodySent;
      }
      if !IsIdempotent(verb) {
        return attempts, NotIdempotent;
      }
      if attempts >= max {
        return attempts, Exhausted;
      }
      if canceled(attempts) {
        return attempts, Canceled;
      }
    }
  }
}
