/** Which message histories a model request accepts: tool results must answer earlier tool calls. */
module History {
  import opened Basics

  datatype Call = Call(id: string, name: string)

  datatype Message = Assistant(calls: seq<Call>) | ToolResult(id: string, name: string) | Other

  datatype Refusal = DuplicateCall | NoMatchingCall | WrongToolName | AnsweredTwice

  /** All tool calls of the assistant messages, in order. */
  function Calls(messages: seq<Message>): seq<Call> {
    if messages == [] then []
    else
      Calls(messages[..|messages| - 1]) +
      match messages[|messages| - 1]
      case Assistant(calls) => calls
      case _ => []
  }

  ghost predicate DistinctIds(calls: seq<Call>) {
    forall a, b :: 0 <= a < b < |calls| ==> calls[a].id != calls[b].id
  }

  /** The tool result at `i` answers a call made before it, by id and by name. */
  ghost predicate Answers(messages: seq<Message>, i: nat)
    requires i < |messages|
  {
    messages[i].ToolResult? ==> Call(messages[i].id, messages[i].name) in Calls(messages[..i])
  }

  /** No two tool results answer the same id. */
  ghost predicate AnsweredOnce(messages: seq<Message>) {
    forall i, k :: 0 <= i < k < |messages| && messages[i].ToolResult? && messages[k].ToolResult? ==>
      messages[i].id != messages[k].id
  }

  /** What the history must look like. */
  ghost predicate WellFormed(messages: seq<Message>) {
    && DistinctIds(Calls(messages))
    && (forall i :: 0 <= i < |messages| ==> Answers(messages, i))
    && AnsweredOnce(messages)
  }

  lemma CallsStep(messages: seq<Message>, n: nat)
    requires n < |messages|
    ensures Calls(messages[..n + 1]) ==
            Calls(messages[..n]) + if messages[n].Assistant? then messages[n].calls else []
  {
    assert messages[..n + 1][..n] == messages[..n];
  }

  lemma {:induction false} CallsPrefix(messages: seq<Message>, n: nat)
    requires n <= |messages|
    ensures Calls(messages[..n]) <= Calls(messages)
  {
    if n == |messages| {
      assert messages[..n] == messages;
    } else {
      var front := messages[..|messages| - 1];
      assert front[..n] == messages[..n];
      CallsPrefix(front, n);
    }
  }

  /** A prefix of a well-formed history is well formed. */
  lemma PrefixWellFormed(messages: seq<Message>, n: nat)
    requires WellFormed(messages) && n <= |messages|
    ensures WellFormed(messages[..n])
  {
    var front := messages[..n];
    CallsPrefix(messages, n);
    forall i | 0 <= i < n ensures Answers(front, i) {
      assert front[..i] == messages[..i];
      assert Answers(messages, i);
    }
  }

  /** What the two tables of the loop hold after a well-formed prefix. */
  ghost predicate Tracks(pending: map<string, string>, answered: set<string>, calls: seq<Call>,
                         messages: seq<Message>) {
    && (forall c :: c in calls ==> c.id in pending && pending[c.id] == c.name)
    && (forall id :: id in pending ==> Call(id, pending[id]) in calls)
    && (forall id :: id in answered <==>
        exists i :: 0 <= i < |messages| && messages[i].ToolResult? && messages[i].id == id)
  }

  lemma PendingMatches(pending: map<string, string>, answered: set<string>, calls: seq<Call>, messages: seq<Message>,
                       id: string, name: string)
    requires Tracks(pending, answered, calls, messages) && DistinctIds(calls)
    ensures Call(id, name) in calls <==> id in pending && pending[id] == name
  {
  }

  lemma AnsweredKnown(messages: seq<Message>, id: string)
    requires WellFormed(messages)
    requires exists i :: 0 <= i < |messages| && messages[i].ToolResult? && messages[i].id == id
    ensures exists c :: c in Calls(messages) && c.id == id
  {
    var i :| 0 <= i < |messages| && messages[i].ToolResult? && messages[i].id == id;
    assert Answers(messages, i);
    CallsPrefix(messages, i);
  }

  lemma ResultRefused(messages: seq<Message>, n: nat)
    requires n < |messages| && messages[n].ToolResult?
    requires WellFormed(messages[..n])
    ensures !Answers(messages, n) ==> !WellFormed(messages)
    ensures (exists i :: 0 <= i < n && messages[i].ToolResult? && messages[i].id == messages[n].id) ==>
            !WellFormed(messages)
  {
  }

  lemma ResultAccepted(messages: seq<Message>, n: nat)
    requires n < |messages| && messages[n].ToolResult? && WellFormed(messages[..n]) && Answers(messages, n)
    requires !exists i :: 0 <= i < n && messages[i].ToolResult? && messages[i].id == messages[n].id
    ensures WellFormed(messages[..n + 1])
  {
    var front := messages[..n + 1];
    CallsStep(messages, n);
    forall i | 0 <= i < n + 1 ensures Answers(front, i) {
      assert front[..i] == messages[..i];
      if i < n {
        assert messages[..n][..i] == messages[..i];
        assert Answers(messages[..n], i);
      }
    }
    forall i, k | 0 <= i < k < n + 1 && front[i].ToolResult? && front[k].ToolResult?
      ensures front[i].id != front[k].id
    {
      if k < n { assert messages[..n][i].id != messages[..n][k].id; }
    }
  }

  lemma OtherAccepted(messages: seq<Message>, n: nat)
    requires n < |messages| && !messages[n].ToolResult? && WellFormed(messages[..n])
    requires DistinctIds(Calls(messages[..n + 1]))
    ensures WellFormed(messages[..n + 1])
  {
    var front := messages[..n + 1];
    forall i | 0 <= i < n + 1 ensures Answers(front, i) {
      assert front[..i] == messages[..i];
      if i < n {
        assert messages[..n][..i] == messages[..i];
        assert Answers(messages[..n], i);
      }
    }
    forall i, k | 0 <= i < k < n + 1 && front[i].ToolResult? && front[k].ToolResult?
      ensures front[i].id != front[k].id
    {
      assert messages[..n][i].id != messages[..n][k].id;
    }
  }

  /** The calls of one assistant message are entered one by one. */
  method EnterCalls(messages: seq<Message>, n: nat, pending: map<string, string>, answered: set<string>)
    returns (r: Result<map<string, string>>)
    requires n < |messages| && messages[n].Assistant? && WellFormed(messages[..n])
    requires Tracks(pending, answered, Calls(messages[..n]), messages[..n])
    ensures r.Ok? <==> DistinctIds(Calls(messages[..n + 1]))
    ensures r.Ok? ==> Tracks(r.value, answered, Calls(messages[..n + 1]), messages[..n])
  {
    var calls := messages[n].calls;
    var table := pending;
    ghost var known := Calls(messages[..n]);
    for j := 0 to |calls|
      invariant Tracks(table, answered, known + calls[..j], messages[..n])
      invariant DistinctIds(known + calls[..j])
    {
      ghost var entered := known + calls[..j];
      var call := calls[j];
      assert known + calls[..j + 1] == entered + [call];
      if call.id in table || call.id in answered {
        if call.id in answered { AnsweredKnown(messages[..n], call.id); }
        assert exists c :: c in entered && c.id == call.id;
        CallsStep(messages, n);
        RepeatedId(known + calls, entered, call);
        return Err("assistant tool-call IDs must be unique");
      }
      table := table[call.id := call.name];
    }
    CallsStep(messages, n);
    assert calls[..|calls|] == calls;
    return Ok(table);
  }

  lemma RepeatedId(all: seq<Call>, entered: seq<Call>, call: Call)
    requires entered + [call] <= all && exists c :: c in entered && c.id == call.id
    ensures !DistinctIds(all)
  {
    var a :| 0 <= a < |entered| && entered[a].id == call.id;
    assert all[a] == entered[a] && all[|entered|] == call;
  }

  /** The reason given is what is wrong with message `n`, the first that does not fit. */
  ghost predicate RefusedAt(messages: seq<Message>, n: nat, refusal: Refusal) {
    && n < |messages| && WellFormed(messages[..n]) && !WellFormed(messages[..n + 1])
    && match refusal
       case DuplicateCall => messages[n].Assistant?
       case NoMatchingCall =>
         messages[n].ToolResult? && forall c :: c in Calls(messages[..n]) ==> c.id != messages[n].id
       case WrongToolName =>
         messages[n].ToolResult? &&
         exists c :: c in Calls(messages[..n]) && c.id == messages[n].id && c.name != messages[n].name
       case AnsweredTwice =>
         messages[n].ToolResult? && Answers(messages, n) &&
         exists i :: 0 <= i < n && messages[i].ToolResult? && messages[i].id == messages[n].id
  }

  /** The checks on one tool result, in the order they are made. */
  method CheckResult(messages: seq<Message>, n: nat, pending: map<string, string>, answered: set<string>)
    returns (refusal: Option<Refusal>)
    requires n < |messages| && messages[n].ToolResult? && WellFormed(messages[..n])
    requires Tracks(pending, answered, Calls(messages[..n]), messages[..n])
    ensures refusal.None? ==> WellFormed(messages[..n + 1])
    ensures refusal.None? ==>
              Tracks(pending, answered + {messages[n].id}, Calls(messages[..n + 1]), messages[..n + 1])
    ensures refusal.Some? ==> RefusedAt(messages, n, refusal.value)
  {
    var id, name := messages[n].id, messages[n].name;
    ghost var front := messages[..n + 1];
    assert front[n] == messages[n] && front[..n] == messages[..n];
    CallsStep(messages, n);
    ResultRefused(front, n);
    PendingMatches(pending, answered, Calls(messages[..n]), messages[..n], id, name);
    if id !in pending {
      return Some(NoMatchingCall);
    }
    if name != pending[id] {
      assert Call(id, pending[id]) in Calls(messages[..n]);
      return Some(WrongToolName);
    }
    if id in answered {
      var i :| 0 <= i < n && messages[..n][i].ToolResult? && messages[..n][i].id == id;
      assert messages[i].id == messages[n].id && front[i] == messages[i];
      return Some(AnsweredTwice);
    }
    NotYetAnswered(messages, n, answered);
    ResultAccepted(messages, n);
    ResultTracked(pending, answered, Calls(messages[..n]), messages, n);
    return None;
  }

  lemma NotYetAnswered(messages: seq<Message>, n: nat, answered: set<string>)
    requires n < |messages| && messages[n].ToolResult? && messages[n].id !in answered
    requires forall i :: 0 <= i < n && messages[..n][i].ToolResult? ==> messages[..n][i].id in answered
    ensures !exists i :: 0 <= i < n && messages[i].ToolResult? && messages[i].id == messages[n].id
  {
    forall i | 0 <= i < n && messages[i].ToolResult? ensures messages[i].id != messages[n].id {
      assert messages[..n][i] == messages[i];
    }
  }

  lemma ResultTracked(pending: map<string, string>, answered: set<string>, calls: seq<Call>, messages: seq<Message>,
                      n: nat)
    requires n < |messages| && messages[n].ToolResult? && Tracks(pending, answered, calls, messages[..n])
    ensures Tracks(pending, answered + {messages[n].id}, calls, messages[..n + 1])
  {
    var front := messages[..n + 1];
    forall i | 0 <= i < |front| && front[i].ToolResult? ensures front[i].id in answered + {messages[n].id} {
      if i < n { assert messages[..n][i] == front[i]; }
    }
    forall id | id in answered + {messages[n].id}
      ensures exists i :: 0 <= i < |front| && front[i].ToolResult? && front[i].id == id
    {
      if id in answered {
        var i :| 0 <= i < n && messages[..n][i].ToolResult? && messages[..n][i].id == id;
        assert front[i].id == id;
      } else {
        assert front[n].id == id;
      }
    }
  }

  lemma StillTracked(pending: map<string, string>, answered: set<string>, calls: seq<Call>, messages: seq<Message>,
                     n: nat)
    requires n < |messages| && !messages[n].ToolResult? && Tracks(pending, answered, calls, messages[..n])
    ensures Tracks(pending, answered, calls, messages[..n + 1])
  {
    var front := messages[..n + 1];
    forall i | 0 <= i < |front| && front[i].ToolResult? ensures front[i].id in answered {
      assert i != n && messages[..n][i] == front[i];
    }
    forall id | id in answered ensures exists i :: 0 <= i < |front| && front[i].ToolResult? && front[i].id == id {
      var i :| 0 <= i < n && messages[..n][i].ToolResult? && messages[..n][i].id == id;
      assert front[i].id == id;
    }
  }

  /** The message loop of `_request_invariants`. */
  method Accept(messages: seq<Message>) returns (refusal: Option<Refusal>)
    ensures refusal.None? <==> WellFormed(messages)
    ensures refusal.Some? ==> exists n :: RefusedAt(messages, n, refusal.value)
  {
    var pending: map<string, string> := map[];
    var answered: set<string> := {};
    for n := 0 to |messages|
      invariant WellFormed(messages[..n])
      invariant Tracks(pending, answered, Calls(messages[..n]), messages[..n])
    {
      CallsStep(messages, n);
      match messages[n] {
        case Assistant(_) =>
          var entered := EnterCalls(messages, n, pending, answered);
          if entered.Err? {
            RefusedMeans(messages, n, DuplicateCall);
            return Some(DuplicateCall);
          }
          OtherAccepted(messages, n);
          StillTracked(entered.value, answered, Calls(messages[..n + 1]), messages, n);
          pending := entered.value;
        case ToolResult(id, _) =>
          var refused := CheckResult(messages, n, pending, answered);
          if refused.Some? {
            RefusedMeans(messages, n, refused.value);
            return refused;
          }
          answered := answered + {id};
        case Other =>
          OtherAccepted(messages, n);
          StillTracked(pending, answered, Calls(messages[..n]), messages, n);
      }
    }
    assert messages[..|messages|] == messages;
    return None;
  }

  lemma RefusedMeans(messages: seq<Message>, n: nat, refusal: Refusal)
    requires RefusedAt(messages, n, refusal)
    ensures !WellFormed(messages) && exists m :: RefusedAt(messages, m, refusal)
  {
    if WellFormed(messages) { PrefixWellFormed(messages, n + 1); }
  }
}
