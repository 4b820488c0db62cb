/** Parameter-store helper of the canaries: a fetch-once resolver over one
    memo slot, the lookup callers use, and a line splitter for multi-line
    values. The remote store is not called: its answer to the one batch
    request is an input of the step that settles the slot.
 */
module Params {
  import opened Text

  /** Remote parameter name to the local name it is exported under. */
  type NameMap = map<string, string>

  /** The store accepts at most this many names in one request. */
  const MaxNames: nat := 10

  const TooManyNames: string := "Parameters exceed maximum allowed (code refactor needed."
  const InvalidNamePrefix: string := "Invalid parameter name: "

  /** The key a property access with a missing key is converted to. */
  const Undefined: string := "undefined"

  /** One batch request to the store. */
  datatype Request = Request(names: set<string>, withDecryption: bool)

  datatype Parameter = Parameter(name: string, value: string)

  /** The store's answer: the parameters it found and the names it did not
      know, or a call that failed outright. */
  datatype Response =
    | Answer(parameters: seq<Parameter>, invalidParameters: seq<string>)
    | CallFailed

  /** The memo slot: nothing stored yet, a fetch in flight, a fetch that
      delivered its parameters, or a fetch whose promise will never settle. */
  datatype Slot = None | Pending | Resolved(params: map<string, string>) | NeverResolves

  /** What one call of the fetch helper hands back: an immediate (empty)
      result, an exception thrown before any request, or the promise kept in
      the slot. */
  datatype Reply = Immediate(params: map<string, string>) | Thrown(message: string) | Memo

  /** The slot after the call, the reply, and the requests sent (none or one). */
  datatype Fetch = Fetch(slot: Slot, reply: Reply, sent: seq<Request>)

  /** The synchronous part of the fetch helper. With nothing stored it sends
      the one batch request only when there are between one and ten names;
      with no names it answers an empty result and with too many it throws,
      storing nothing in either case. Once something is stored every call
      hands back that stored promise and sends nothing. */
  function FetchParams(names: NameMap, slot: Slot): (f: Fetch)
    ensures |f.sent| <= 1
    ensures f.sent != [] <==> slot == None && 1 <= |names| <= MaxNames
    ensures f.sent != [] ==> f.sent[0] == Request(names.Keys, true) && f.slot == Pending
    ensures slot != None ==> f == Fetch(slot, Memo, [])
    ensures slot == None && |names| == 0 ==> f == Fetch(None, Immediate(map[]), [])
    ensures slot == None && |names| > MaxNames ==> f == Fetch(None, Thrown(TooManyNames), [])
  {
    if slot != None then Fetch(slot, Memo, [])
    else if |names| == 0 then Fetch(None, Immediate(map[]), [])
    else if |names| > MaxNames then Fetch(None, Thrown(TooManyNames), [])
    else Fetch(Pending, Memo, [Request(names.Keys, true)])
  }

  /** The local name a returned parameter is stored under; a name missing
      from the map is looked up as `undefined`, which becomes the key. */
  function LocalName(names: NameMap, remote: string): string
  {
    if remote in names then names[remote] else Undefined
  }

  /** The parameters of a successful answer, stored one after another under
      their local names. */
  function Rename(names: NameMap, ps: seq<Parameter>): map<string, string>
  {
    if ps == [] then map[]
    else Rename(names, ps[..|ps| - 1])[LocalName(names, ps[|ps| - 1].name) := ps[|ps| - 1].value]
  }

  /** A key is present exactly when some parameter maps to it, so every key
      is a local name of the map (or `undefined`). */
  lemma {:induction false} RenameDomain(names: NameMap, ps: seq<Parameter>)
    ensures forall k :: k in Rename(names, ps) <==> exists i :: 0 <= i < |ps| && LocalName(names, ps[i].name) == k
    ensures forall k :: k in Rename(names, ps) ==> k in names.Values || k == Undefined
  {
    if ps != [] {
      var init := ps[..|ps| - 1];
      RenameDomain(names, init);
      assert forall i :: 0 <= i < |ps| - 1 ==> init[i] == ps[i];
    }
  }

  /** Of the parameters stored under the same key the later one wins: the
      value under a key is that of the last parameter mapped to it. */
  lemma {:induction false} RenameLastWins(names: NameMap, ps: seq<Parameter>, k: string) returns (j: nat)
    requires k in Rename(names, ps)
    ensures j < |ps| && LocalName(names, ps[j].name) == k
    ensures Rename(names, ps)[k] == ps[j].value
    ensures forall i :: j < i < |ps| ==> LocalName(names, ps[i].name) != k
  {
    var last := ps[|ps| - 1];
    var init := ps[..|ps| - 1];
    if LocalName(names, last.name) == k {
      j := |ps| - 1;
    } else {
      j := RenameLastWins(names, init, k);
      assert init[j] == ps[j];
      forall i | j < i < |ps|
        ensures LocalName(names, ps[i].name) != k
      {
        if i < |ps| - 1 {
          assert init[i] == ps[i];
        }
      }
    }
  }

  /** When the store answers only for names that were asked for, every key
      of the result is one of the configured local names. */
  lemma RenameKeys(names: NameMap, ps: seq<Parameter>)
    requires forall i :: 0 <= i < |ps| ==> ps[i].name in names
    ensures Rename(names, ps).Keys <= names.Values
  {
    RenameDomain(names, ps);
    forall k | k in Rename(names, ps)
      ensures k in names.Values
    {
      var i :| 0 <= i < |ps| && LocalName(names, ps[i].name) == k;
      assert names[ps[i].name] == k;
    }
  }

  /** The store's answer arriving for the request in flight: an answer
      without invalid names resolves the slot with the renamed parameters;
      an answer with invalid names, or a failed call, leaves the promise
      unsettled for good. A slot with no request in flight is not affected. */
  function Settle(names: NameMap, slot: Slot, response: Response): (s: Slot)
    ensures slot != Pending ==> s == slot
    ensures slot == Pending ==> s != None && s != Pending
    ensures slot == Pending ==> (s.Resolved? <==> response.Answer? && response.invalidParameters == [])
    ensures slot == Pending && s.Resolved? ==> s.params == Rename(names, response.parameters)
  {
    if slot != Pending then slot
    else
      match response
      case CallFailed => NeverResolves
      case Answer(ps, invalid) => if |invalid| > 0 then NeverResolves else Resolved(Rename(names, ps))
  }

  /** What a caller of `get` eventually sees: a value, a rejection with a
      message, or nothing yet (the promise it waits for has not settled). */
  datatype Outcome = Returned(value: string) | Rejected(message: string) | Suspended

  /** The lookup at the end of `get`: the stored value when the name is a
      key, and otherwise the error naming it. */
  function Lookup(params: map<string, string>, name: string): (o: Outcome)
    ensures o.Returned? <==> name in params
    ensures o.Returned? ==> o.value == params[name]
    ensures !o.Returned? ==> o == Rejected(InvalidNamePrefix + name)
  {
    if name in params then Returned(params[name]) else Rejected(InvalidNamePrefix + name)
  }

  /** One call of `get` up to its first wait: the slot after the call, the
      requests it sent, and its outcome if it already has one. */
  datatype GetStep = GetStep(slot: Slot, sent: seq<Request>, outcome: Outcome)

  /** `get(name)` up to its first wait: fetch, then look the name up in
      whatever the fetch hands back. */
  function Get(names: NameMap, slot: Slot, name: string): GetStep
  {
    var f := FetchParams(names, slot);
    var outcome :=
      match f.reply
      case Thrown(m) => Rejected(m)
      case Immediate(p) => Lookup(p, name)
      case Memo => if f.slot.Resolved? then Lookup(f.slot.params, name) else Suspended;
    GetStep(f.slot, f.sent, outcome)
  }

  /** A value is only ever returned from a resolved slot, and then it is the
      stored value; with no names the call is rejected as an unknown name,
      with too many names by the limit error; while the fetch is in flight
      or can never settle the caller waits. */
  lemma GetOutcome(names: NameMap, slot: Slot, name: string)
    ensures Get(names, slot, name).outcome.Returned? ==>
              slot.Resolved? && name in slot.params && Get(names, slot, name).outcome.value == slot.params[name]
    ensures slot.Resolved? ==> Get(names, slot, name).outcome == Lookup(slot.params, name)
    ensures slot == None && |names| == 0 ==> Get(names, slot, name).outcome == Rejected(InvalidNamePrefix + name)
    ensures slot == None && |names| > MaxNames ==> Get(names, slot, name).outcome == Rejected(TooManyNames)
    ensures slot == Pending || slot == NeverResolves ==> Get(names, slot, name).outcome == Suspended
  {
  }

  /** Something that happens to the resolver: a caller asks for a name, or
      the store's answer to the request in flight arrives. */
  datatype Event = Call(name: string) | Arrive(response: Response)

  /** The memo slot and the names whose callers are waiting on it. */
  datatype State = State(slot: Slot, waiting: seq<string>)

  /** A settled `get`: the name asked for and what the caller saw. */
  datatype Delivery = Delivery(name: string, outcome: Outcome)

  /** The state after some events, the requests they sent and the `get`
      calls they settled. */
  datatype Run = Run(state: State, sent: seq<Request>, delivered: seq<Delivery>)

  /** The outcomes of the callers waiting on a slot that has just resolved. */
  function Wake(params: map<string, string>, waiting: seq<string>): (r: seq<Delivery>)
    ensures |r| == |waiting|
    ensures forall k :: 0 <= k < |r| ==> r[k].name == waiting[k] && r[k].outcome == Lookup(params, waiting[k])
  {
    if waiting == [] then []
    else [Delivery(waiting[0], Lookup(params, waiting[0]))] + Wake(params, waiting[1..])
  }

  /** One event: a call that has to wait joins the waiting callers and any
      other call is settled at once; an answer that resolves the slot wakes
      every waiting caller. */
  function Step(names: NameMap, st: State, e: Event): Run
  {
    match e
    case Call(name) =>
      var g := Get(names, st.slot, name);
      if g.outcome.Suspended? then Run(State(g.slot, st.waiting + [name]), g.sent, [])
      else Run(State(g.slot, st.waiting), g.sent, [Delivery(name, g.outcome)])
    case Arrive(response) =>
      var s := Settle(names, st.slot, response);
      if st.slot == Pending && s.Resolved? then Run(State(s, []), [], Wake(s.params, st.waiting))
      else Run(State(s, st.waiting), [], [])
  }

  /** A sequence of events processed one after another. */
  function Execute(names: NameMap, st: State, events: seq<Event>): Run
    decreases |events|
  {
    if events == [] then Run(st, [], [])
    else
      var first := Step(names, st, events[0]);
      var rest := Execute(names, first.state, events[1..]);
      Run(rest.state, first.sent + rest.sent, first.delivered + rest.delivered)
  }

  /** Fetch-once: over any events, at most one request is ever sent, and none
      once the slot holds something; a slot that holds something never goes
      back to holding nothing. */
  lemma {:induction false} AtMostOneRequest(names: NameMap, st: State, events: seq<Event>)
    ensures |Execute(names, st, events).sent| <= (if st.slot == None then 1 else 0)
    ensures st.slot != None ==> Execute(names, st, events).state.slot != None
    decreases |events|
  {
    if events != [] {
      var first := Step(names, st, events[0]);
      AtMostOneRequest(names, first.state, events[1..]);
      if st.slot != None {
        assert first.sent == [] && first.state.slot != None;
      } else if first.sent != [] {
        assert first.state.slot == Pending;
      } else {
        assert first.state.slot == None;
      }
    }
  }

  /** Every request sent asks for exactly the configured remote names, with
      decryption on. */
  lemma {:induction false} RequestsAskForAllNames(names: NameMap, st: State, events: seq<Event>)
    ensures forall r :: r in Execute(names, st, events).sent ==> r == Request(names.Keys, true)
    decreases |events|
  {
    if events != [] {
      var first := Step(names, st, events[0]);
      RequestsAskForAllNames(names, first.state, events[1..]);
    }
  }

  /** With between one and ten names, the first call sends the request and
      stores its promise: exactly one request over any events that contain a
      call. */
  lemma {:induction false} FirstCallSends(names: NameMap, st: State, events: seq<Event>)
    requires st.slot == None && 1 <= |names| <= MaxNames
    requires exists i :: 0 <= i < |events| && events[i].Call?
    ensures |Execute(names, st, events).sent| == 1
    ensures Execute(names, st, events).state.slot != None
    decreases |events|
  {
    var first := Step(names, st, events[0]);
    if events[0].Call? {
      assert |first.sent| == 1;
      AtMostOneRequest(names, first.state, events[1..]);
    } else {
      assert first.state == st && first.sent == [];
      var i :| 0 <= i < |events| && events[i].Call?;
      assert events[1..][i - 1] == events[i];
      FirstCallSends(names, first.state, events[1..]);
    }
  }

  /** The number of `get` calls among some events. */
  function Calls(events: seq<Event>): nat
  {
    if events == [] then 0 else (if events[0].Call? then 1 else 0) + Calls(events[1..])
  }

  /** The names asked for by the `get` calls among some events, in order. */
  function CallNames(events: seq<Event>): (r: seq<string>)
    ensures |r| == Calls(events)
  {
    if events == [] then []
    else (if events[0].Call? then [events[0].name] else []) + CallNames(events[1..])
  }

  /** Waking two runs of callers one after the other is waking them all. */
  lemma {:induction false} WakeAppend(params: map<string, string>, a: seq<string>, b: seq<string>)
    ensures Wake(params, a + b) == Wake(params, a) + Wake(params, b)
    decreases |a|
  {
    if a != [] {
      assert (a + b)[1..] == a[1..] + b;
      WakeAppend(params, a[1..], b);
    }
  }

  /** With an empty name map nothing is ever requested or stored, and every
      call settles at once, rejected as an unknown name. */
  lemma {:induction false} EmptyMapNeverFetches(names: NameMap, st: State, events: seq<Event>)
    requires |names| == 0 && st.slot == None
    ensures Execute(names, st, events).sent == []
    ensures Execute(names, st, events).state.slot == None
    ensures |Execute(names, st, events).delivered| == Calls(events)
    ensures forall d :: d in Execute(names, st, events).delivered ==>
              d.outcome == Rejected(InvalidNamePrefix + d.name)
    ensures Execute(names, st, events).delivered == Wake(map[], CallNames(events))
    decreases |events|
  {
    if events != [] {
      var first := Step(names, st, events[0]);
      EmptyMapNeverFetches(names, first.state, events[1..]);
      var head := if events[0].Call? then [events[0].name] else [];
      WakeAppend(map[], head, CallNames(events[1..]));
    }
  }

  /** With more than ten names every call throws the same error before any
      request, and nothing is ever stored, so the failure repeats. */
  lemma {:induction false} TooManyNamesAlwaysThrows(names: NameMap, st: State, events: seq<Event>)
    requires |names| > MaxNames && st.slot == None
    ensures Execute(names, st, events).sent == []
    ensures Execute(names, st, events).state.slot == None
    ensures |Execute(names, st, events).delivered| == Calls(events)
    ensures forall d :: d in Execute(names, st, events).delivered ==> d.outcome == Rejected(TooManyNames)
    decreases |events|
  {
    if events != [] {
      var first := Step(names, st, events[0]);
      TooManyNamesAlwaysThrows(names, first.state, events[1..]);
    }
  }

  /** An answer listing invalid names, or a failed call, settles nothing: the
      slot stays unsettled and no waiting caller is woken. */
  lemma InvalidAnswerNeverResolves(names: NameMap, st: State, response: Response)
    requires st.slot == Pending
    requires response.CallFailed? || |response.invalidParameters| > 0
    ensures Step(names, st, Arrive(response)).state.slot == NeverResolves
    ensures Step(names, st, Arrive(response)).delivered == []
  {
  }

  /** Once the promise will never settle, no later event sends a request or
      settles any call: no parameter is ever delivered. */
  lemma {:induction false} NeverResolvesIsFinal(names: NameMap, st: State, events: seq<Event>)
    requires st.slot == NeverResolves
    ensures Execute(names, st, events).state.slot == NeverResolves
    ensures Execute(names, st, events).sent == []
    ensures Execute(names, st, events).delivered == []
    decreases |events|
  {
    if events != [] {
      var first := Step(names, st, events[0]);
      NeverResolvesIsFinal(names, first.state, events[1..]);
    }
  }

  /** Once resolved, the slot keeps the same parameters, nothing more is
      requested, and every later call sees the lookup in those parameters. */
  lemma {:induction false} ResolvedIsFinal(names: NameMap, st: State, events: seq<Event>)
    requires st.slot.Resolved?
    ensures Execute(names, st, events).state.slot == st.slot
    ensures Execute(names, st, events).sent == []
    ensures forall d :: d in Execute(names, st, events).delivered ==>
              d.outcome == Lookup(st.slot.params, d.name)
    ensures |Execute(names, st, events).delivered| == Calls(events)
    ensures Execute(names, st, events).delivered == Wake(st.slot.params, CallNames(events))
    decreases |events|
  {
    if events != [] {
      var first := Step(names, st, events[0]);
      ResolvedIsFinal(names, first.state, events[1..]);
      var head := if events[0].Call? then [events[0].name] else [];
      WakeAppend(st.slot.params, head, CallNames(events[1..]));
    }
  }

  /** One `get` call per name, in order. */
  function CallEvents(ns: seq<string>): seq<Event>
  {
    if ns == [] then [] else [Call(ns[0])] + CallEvents(ns[1..])
  }

  /** Callers arriving while the request is in flight all wait on it. */
  lemma {:induction false} PendingCallersWait(names: NameMap, w: seq<string>, ns: seq<string>)
    ensures Execute(names, State(Pending, w), CallEvents(ns)) == Run(State(Pending, w + ns), [], [])
    decreases |ns|
  {
    if ns == [] {
      assert w + ns == w;
    } else {
      var events := CallEvents(ns);
      assert events[0] == Call(ns[0]) && events[1..] == CallEvents(ns[1..]);
      PendingCall(names, w, ns[0]);
      PendingCallersWait(names, w + [ns[0]], ns[1..]);
      assert w + [ns[0]] + ns[1..] == w + ns;
    }
  }

  /** Single flight: callers racing before the store answers share one
      request for all configured names and all wait on it, in the order they
      called; `PendingAnswer` then wakes them from the one stored result. */
  lemma RacingCallersShareOneFetch(names: NameMap, ns: seq<string>)
    requires 1 <= |names| <= MaxNames && ns != []
    ensures Execute(names, State(None, []), CallEvents(ns))
            == Run(State(Pending, ns), [Request(names.Keys, true)], [])
  {
    var events := CallEvents(ns);
    assert events[0] == Call(ns[0]) && events[1..] == CallEvents(ns[1..]);
    FirstCall(names, ns[0]);
    PendingCallersWait(names, [ns[0]], ns[1..]);
    assert [ns[0]] + ns[1..] == ns;
  }

  /** A call while the request is in flight waits. */
  lemma PendingCall(names: NameMap, w: seq<string>, name: string)
    ensures Step(names, State(Pending, w), Call(name)) == Run(State(Pending, w + [name]), [], [])
  {
  }

  /** A successful answer wakes the waiting callers. */
  lemma PendingAnswer(names: NameMap, w: seq<string>, ps: seq<Parameter>)
    ensures Step(names, State(Pending, w), Arrive(Answer(ps, [])))
            == Run(State(Resolved(Rename(names, ps)), []), [], Wake(Rename(names, ps), w))
  {
  }

  /** The first call with between one and ten names sends the request and
      waits for its answer. */
  lemma FirstCall(names: NameMap, name: string)
    requires 1 <= |names| <= MaxNames
    ensures Step(names, State(None, []), Call(name))
            == Run(State(Pending, [name]), [Request(names.Keys, true)], [])
  {
    assert Get(names, None, name) == GetStep(Pending, [Request(names.Keys, true)], Suspended);
  }

  /** Each line trimmed. */
  function TrimAll(lines: seq<string>): (r: seq<string>)
    ensures |r| == |lines|
    ensures forall k :: 0 <= k < |r| ==> r[k] == Trim(lines[k])
  {
    seq(|lines|, k requires 0 <= k < |lines| => Trim(lines[k]))
  }

  /** The non-empty strings, in order. */
  function DropEmpty(ts: seq<string>): (r: seq<string>)
    ensures forall k :: 0 <= k < |r| ==> r[k] != "" && r[k] in ts
  {
    if ts == [] then []
    else (if ts[0] == "" then [] else [ts[0]]) + DropEmpty(ts[1..])
  }

  /** Dropping the empty strings works piece by piece: filtering a
      concatenation is concatenating the filtered pieces. */
  lemma {:induction false} DropEmptyAppend(a: seq<string>, b: seq<string>)
    ensures DropEmpty(a + b) == DropEmpty(a) + DropEmpty(b)
    decreases |a|
  {
    if a == [] {
      assert a + b == b;
    } else {
      assert (a + b)[0] == a[0] && (a + b)[1..] == a[1..] + b;
      DropEmptyAppend(a[1..], b);
    }
  }

  /** `arrayFromLines(str)`: the value split at line feeds, each line
      trimmed, blank lines dropped. No element is empty, none starts or ends
      with whitespace and none contains a line feed. */
  function ArrayFromLines(s: string): (r: seq<string>)
    ensures forall k :: 0 <= k < |r| ==> r[k] != "" && IsTrimmed(r[k]) && '\n' !in r[k]
  {
    var lines := Split(s, '\n');
    var ts := TrimAll(lines);
    TrimmedNoNewline(lines);
    DropEmpty(ts)
  }

  lemma TrimmedNoNewline(lines: seq<string>)
    requires forall i :: 0 <= i < |lines| ==> '\n' !in lines[i]
    ensures forall t :: t in TrimAll(lines) ==> IsTrimmed(t) && '\n' !in t
  {
    forall t | t in TrimAll(lines) ensures IsTrimmed(t) && '\n' !in t {
      var j :| 0 <= j < |lines| && TrimAll(lines)[j] == t;
      TrimNoNewline(lines[j]);
    }
  }

  lemma TrimNoNewline(line: string)
    requires '\n' !in line
    ensures '\n' !in Trim(line)
  {
    var i := TrimInfix(line);
    var t := Trim(line);
    forall k | 0 <= k < |t| ensures t[k] != '\n' {
      assert t[k] == line[i + k];
    }
  }

  /** Element `k` of `r` is `ts[idx[k]]`. */
  predicate Selects(ts: seq<string>, r: seq<string>, idx: seq<nat>)
  {
    |idx| == |r| && forall k :: 0 <= k < |idx| ==> idx[k] < |ts| && r[k] == ts[idx[k]]
  }

  predicate Increasing(idx: seq<nat>)
  {
    forall k, l :: 0 <= k < l < |idx| ==> idx[k] < idx[l]
  }

  /** Every non-empty string of `ts` is picked. */
  predicate Covers(ts: seq<string>, idx: seq<nat>)
  {
    forall i :: 0 <= i < |ts| && ts[i] != "" ==> i in idx
  }

  /** The kept strings are exactly the non-empty ones, in their order:
      element `k` is `ts[idx[k]]`, the indices increase, and every non-empty
      string is among them. */
  lemma {:induction false} DropEmptyInOrder(ts: seq<string>) returns (idx: seq<nat>)
    ensures Selects(ts, DropEmpty(ts), idx) && Increasing(idx) && Covers(ts, idx)
  {
    if ts == [] {
      idx := [];
    } else {
      var rest := DropEmptyInOrder(ts[1..]);
      if ts[0] == "" {
        idx := SkipFirst(ts, rest);
      } else {
        idx := KeepFirst(ts, rest);
      }
    }
  }

  /** An empty first string is dropped: the tail's indices, shifted. */
  lemma SkipFirst(ts: seq<string>, rest: seq<nat>) returns (idx: seq<nat>)
    requires ts != [] && ts[0] == ""
    requires Selects(ts[1..], DropEmpty(ts[1..]), rest) && Increasing(rest) && Covers(ts[1..], rest)
    ensures Selects(ts, DropEmpty(ts), idx) && Increasing(idx) && Covers(ts, idx)
  {
    idx := Shift(rest);
    assert DropEmpty(ts) == DropEmpty(ts[1..]);
    ShiftSelects(ts, DropEmpty(ts[1..]), rest);
    ShiftIncreasing(rest);
    SkipCovers(ts, rest);
  }

  lemma SkipCovers(ts: seq<string>, rest: seq<nat>)
    requires ts != [] && ts[0] == "" && Covers(ts[1..], rest)
    ensures Covers(ts, Shift(rest))
  {
    forall i | 0 <= i < |ts| && ts[i] != "" ensures i in Shift(rest) {
      var k := ShiftCovers(ts, rest, i);
    }
  }

  /** A non-empty first string is kept: index 0, then the tail's indices,
      shifted. */
  lemma KeepFirst(ts: seq<string>, rest: seq<nat>) returns (idx: seq<nat>)
    requires ts != [] && ts[0] != ""
    requires Selects(ts[1..], DropEmpty(ts[1..]), rest) && Increasing(rest) && Covers(ts[1..], rest)
    ensures Selects(ts, DropEmpty(ts), idx) && Increasing(idx) && Covers(ts, idx)
  {
    var shifted := Shift(rest);
    idx := [0] + shifted;
    assert DropEmpty(ts) == [ts[0]] + DropEmpty(ts[1..]);
    ShiftSelects(ts, DropEmpty(ts[1..]), rest);
    ShiftIncreasing(rest);
    PrependSelects(ts, DropEmpty(ts[1..]), shifted);
    KeepCovers(ts, rest);
  }

  lemma KeepCovers(ts: seq<string>, rest: seq<nat>)
    requires ts != [] && Covers(ts[1..], rest)
    ensures Covers(ts, [0] + Shift(rest))
  {
    var idx := [0] + Shift(rest);
    forall i | 0 <= i < |ts| && ts[i] != "" ensures i in idx {
      if i == 0 {
        assert idx[0] == 0;
      } else {
        var k := ShiftCovers(ts, rest, i);
        assert idx[k + 1] == i;
      }
    }
  }

  /** Indices into the tail of a sequence, as indices into the sequence. */
  function Shift(idx: seq<nat>): (r: seq<nat>)
    ensures |r| == |idx| && forall k :: 0 <= k < |r| ==> r[k] == idx[k] + 1
  {
    if idx == [] then [] else [idx[0] + 1] + Shift(idx[1..])
  }

  lemma ShiftSelects(ts: seq<string>, r: seq<string>, idx: seq<nat>)
    requires ts != [] && Selects(ts[1..], r, idx)
    ensures Selects(ts, r, Shift(idx))
  {
    forall k | 0 <= k < |idx| ensures Shift(idx)[k] < |ts| && r[k] == ts[Shift(idx)[k]] {
      assert ts[1..][idx[k]] == ts[idx[k] + 1];
    }
  }

  lemma ShiftIncreasing(idx: seq<nat>)
    requires Increasing(idx)
    ensures Increasing(Shift(idx)) && Increasing([0] + Shift(idx))
  {
  }

  /** A non-empty string past the first one is picked by the shifted indices
      of the tail. */
  lemma ShiftCovers(ts: seq<string>, idx: seq<nat>, i: nat) returns (k: nat)
    requires 1 <= i < |ts| && ts[i] != "" && Covers(ts[1..], idx)
    ensures k < |idx| && Shift(idx)[k] == i
  {
    assert ts[1..][i - 1] == ts[i];
    k :| 0 <= k < |idx| && idx[k] == i - 1;
  }

  lemma PrependSelects(ts: seq<string>, r: seq<string>, idx: seq<nat>)
    requires ts != [] && Selects(ts, r, idx)
    ensures Selects(ts, [ts[0]] + r, [0] + idx)
  {
    forall k | 1 <= k <= |idx| ensures ([ts[0]] + r)[k] == ts[([0] + idx)[k]] {
      assert ([0] + idx)[k] == idx[k - 1];
    }
  }

  /** `ArrayFromLines` keeps exactly the lines of the value that are not
      blank after trimming, trimmed and in their order: element `k` of the
      result is line `idx[k]` trimmed. The lines are the pieces `Split` cuts
      at line feeds, which join back to the value (`Text.SplitJoin`). */
  lemma ArrayFromLinesInOrder(s: string) returns (idx: seq<nat>)
    ensures Selects(TrimAll(Split(s, '\n')), ArrayFromLines(s), idx) && Increasing(idx)
    ensures forall i :: 0 <= i < |Split(s, '\n')| && Trim(Split(s, '\n')[i]) != "" ==> i in idx
  {
    var lines := Split(s, '\n');
    var ts := TrimAll(lines);
    assert ArrayFromLines(s) == DropEmpty(ts);
    idx := DropEmptyInOrder(ts);
    forall i | 0 <= i < |lines| && Trim(lines[i]) != "" ensures i in idx {
      assert ts[i] != "";
    }
  }
}
