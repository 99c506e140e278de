/**
 * The chat backend (api/index.py): a process-wide table from session id to the list of
 * turns exchanged so far, updated in place by the chat and clear endpoints, plus the
 * health report. The language-model call is an oracle `ask` that, given the history
 * before the new turn and the new message, either returns a reply text or raises.
 */
module History {
  import opened Wrappers
  import opened Text

  datatype Role = User | Model

  /** One stored turn: `{'role': ..., 'parts': [...]}`. */
  datatype Entry = Entry(role: Role, parts: seq<string>)

  /** The JSON body of a chat request; a missing field is `None`. */
  datatype ChatRequest = ChatRequest(message: Option<string>, sessionId: Option<string>)

  /** The JSON body of a clear request. */
  datatype ClearRequest = ClearRequest(sessionId: Option<string>)

  /** What the model call does: return a reply text, or raise an exception with this text. */
  datatype Reply = Answer(text: string) | Raised(error: string)

  /** The JSON bodies the endpoints send back. */
  datatype Body =
    | ChatReply(response: string, sessionId: string)
    | Error(error: string)
    | Notice(message: string)
    | HealthReport(status: string, apiConfigured: bool)

  datatype Response = Response(status: nat, body: Body)

  const DefaultSession := "default"
  const MessageRequired := "Message is required"
  const KeyMissing := "API key not configured"
  const HistoryCleared := "History cleared"

  /** The session a request names, `'default'` when it names none (api/index.py:39, 80). */
  function SessionOf(id: Option<string>): (sid: string)
    ensures id.Some? ==> sid == id.value
    ensures id.None? ==> sid == DefaultSession
  {
    id.GetOr(DefaultSession)
  }

  /**
   * The request's message with surrounding whitespace stripped; `''` when absent
   * (api/index.py:38): the slice of the message after its leading whitespace, with only
   * whitespace cut from either end and none left at either end of the result.
   */
  function UserMessage(req: ChatRequest): (m: string)
    ensures m == [] || (!IsPySpace(m[0]) && !IsPySpace(m[|m| - 1]))
    ensures req.message.None? ==> m == []
    ensures req.message.Some? ==>
              var s, i := req.message.value, LeadingSpaces(req.message.value, IsPySpace);
              && i + |m| <= |s| && m == s[i..i + |m|]
              && (forall k :: 0 <= k < i ==> IsPySpace(s[k]))
              && (forall k :: i + |m| <= k < |s| ==> IsPySpace(s[k]))
  {
    Trim(req.message.GetOr(""), IsPySpace)
  }

  /** The message a user turn may hold: non-empty, with no whitespace at either end. */
  predicate Stripped(m: string) {
    m != [] && !IsPySpace(m[0]) && !IsPySpace(m[|m| - 1])
  }

  function UserTurn(m: string): Entry {
    Entry(User, [m])
  }

  function ModelTurn(t: string): Entry {
    Entry(Model, [t])
  }

  /**
   * What every stored history looks like: each entry has one part, each user part is a
   * stripped non-empty message, and each model entry directly follows a user entry.
   */
  predicate WellFormed(h: seq<Entry>) {
    forall i :: 0 <= i < |h| ==>
      && |h[i].parts| == 1
      && (h[i].role == User ==> Stripped(h[i].parts[0]))
      && (h[i].role == Model ==> i > 0 && h[i - 1].role == User)
  }

  /** The history of `sid`; a session not in the table has none yet. */
  function HistoryOf(conversations: map<string, seq<Entry>>, sid: string): (h: seq<Entry>)
    ensures sid !in conversations ==> h == []
    ensures sid in conversations ==> h == conversations[sid]
  {
    if sid in conversations then conversations[sid] else []
  }

  /**
   * The history after one chat turn on `h`: the user entry is appended first, and the
   * model entry after it only when the model answered.
   */
  function AfterTurn(h: seq<Entry>, m: string, reply: Reply): (r: seq<Entry>)
    ensures |r| == |h| + (if reply.Answer? then 2 else 1)
    ensures r[..|h|] == h && r[|h|] == UserTurn(m)
    ensures reply.Answer? ==> r[|h| + 1] == ModelTurn(reply.text)
  {
    match reply
    case Answer(t) => h + [UserTurn(m), ModelTurn(t)]
    case Raised(_) => h + [UserTurn(m)]
  }

  /** A chat turn with a stripped message keeps a history well formed. */
  lemma AfterTurnWellFormed(h: seq<Entry>, m: string, reply: Reply)
    requires WellFormed(h) && Stripped(m)
    ensures WellFormed(AfterTurn(h, m, reply))
  {
    var r := AfterTurn(h, m, reply);
    forall i | 0 <= i < |r|
      ensures |r[i].parts| == 1
      ensures r[i].role == User ==> Stripped(r[i].parts[0])
      ensures r[i].role == Model ==> i > 0 && r[i - 1].role == User
    {
      if i < |h| {
        assert r[i] == r[..|h|][i] == h[i];
        if i > 0 { assert r[i - 1] == r[..|h|][i - 1] == h[i - 1]; }
      } else if i > |h| {
        assert r[i - 1] == UserTurn(m);
      }
    }
  }

  /** Every history in the table is well formed. */
  predicate AllWellFormed(conversations: map<string, seq<Entry>>) {
    forall sid :: sid in conversations ==> WellFormed(conversations[sid])
  }

  lemma StoreWellFormed(conversations: map<string, seq<Entry>>, sid: string, h: seq<Entry>)
    requires AllWellFormed(conversations) && WellFormed(h)
    ensures AllWellFormed(conversations[sid := h])
  {
  }

  /**
   * A chat turn touches only its own session: the table gains at most that key, every other
   * history is unchanged, and the session's earlier turns stay in place in front of the new ones.
   */
  lemma TurnTouchesOnlyItsSession(conversations: map<string, seq<Entry>>, sid: string, m: string, reply: Reply)
    ensures var before := HistoryOf(conversations, sid);
            var r := conversations[sid := AfterTurn(before, m, reply)];
            && r.Keys == conversations.Keys + {sid}
            && (forall k :: k in conversations && k != sid ==> r[k] == conversations[k])
            && |r[sid]| == |before| + (if reply.Answer? then 2 else 1)
            && r[sid][..|before|] == before
  {
  }

  /** Storing the result of a chat turn keeps every history of the table well formed. */
  lemma TurnKeepsWellFormed(conversations: map<string, seq<Entry>>, sid: string, m: string, reply: Reply)
    requires AllWellFormed(conversations) && Stripped(m)
    ensures AllWellFormed(conversations[sid := AfterTurn(HistoryOf(conversations, sid), m, reply)])
  {
    AfterTurnWellFormed(HistoryOf(conversations, sid), m, reply);
  }

  lemma StoreSame(conversations: map<string, seq<Entry>>, sid: string)
    requires sid in conversations
    ensures conversations[sid := conversations[sid]] == conversations
  {
  }

  lemma StoreTwice(conversations: map<string, seq<Entry>>, sid: string, h: seq<Entry>, h': seq<Entry>)
    ensures conversations[sid := h][sid := h'] == conversations[sid := h']
  {
  }

  /** The table after clearing `sid`: an existing history is emptied, nothing is created. */
  function Cleared(conversations: map<string, seq<Entry>>, sid: string): (r: map<string, seq<Entry>>)
    ensures r.Keys == conversations.Keys
    ensures sid in r ==> r[sid] == []
    ensures forall k :: k in r && k != sid ==> r[k] == conversations[k]
  {
    if sid in conversations then conversations[sid := []] else conversations
  }

  /** Clearing a session twice is the same as clearing it once. */
  lemma ClearedIdempotent(conversations: map<string, seq<Entry>>, sid: string)
    ensures Cleared(Cleared(conversations, sid), sid) == Cleared(conversations, sid)
  {
  }

  /** The backend's state: the conversation table and the configured API key. */
  class ChatServer {
    /** `conversations` (api/index.py:28): session id to the turns stored so far. */
    var conversations: map<string, seq<Entry>>
    /** `GEMINI_API_KEY`, read once from the environment at start-up. */
    const apiKey: Option<string>

    ghost predicate Valid()
      reads this
    {
      AllWellFormed(conversations)
    }

    constructor (apiKey: Option<string>)
      ensures Valid()
      ensures this.apiKey == apiKey && conversations == map[]
    {
      this.apiKey := apiKey;
      conversations := map[];
    }

    /** health (api/index.py:91-92): whether a non-empty key is configured. */
    function Health(): (r: Response)
      ensures r.status == 200 && r.body.HealthReport? && r.body.status == "healthy"
      ensures r.body.apiConfigured <==> apiKey.Some? && apiKey.value != ""
    {
      Response(200, HealthReport("healthy", apiKey.Some? && apiKey.value != ""))
    }

    /**
     * chat (api/index.py:35-74). A blank message is refused first, then a missing key;
     * neither touches the table. Otherwise the user turn is stored, the model is asked
     * with the history as it stood before that turn, and its answer is stored after it;
     * when the model raises, the user turn stays and the error text is sent back.
     */
    method Chat(req: ChatRequest, ask: (seq<Entry>, string) -> Reply) returns (resp: Response)
      requires Valid()
      modifies this
      ensures Valid()
      ensures UserMessage(req) == [] ==>
                resp == Response(400, Error(MessageRequired)) && conversations == old(conversations)
      ensures UserMessage(req) != [] && !Health().body.apiConfigured ==>
                resp == Response(500, Error(KeyMissing)) && conversations == old(conversations)
      ensures UserMessage(req) != [] && Health().body.apiConfigured ==>
                var m, sid := UserMessage(req), SessionOf(req.sessionId);
                var before := HistoryOf(old(conversations), sid);
                && conversations == old(conversations)[sid := AfterTurn(before, m, ask(before, m))]
                && resp == match ask(before, m)
                           case Answer(t) => Response(200, ChatReply(t, sid))
                           case Raised(e) => Response(500, Error(e))
    {
      var message := UserMessage(req);
      var sid := SessionOf(req.sessionId);
      if message == [] {
        return Response(400, Error(MessageRequired));
      }
      if !(apiKey.Some? && apiKey.value != "") {
        return Response(500, Error(KeyMissing));
      }
      ghost var before := HistoryOf(conversations, sid);
      assert Stripped(message);
      if sid !in conversations {
        conversations := conversations[sid := []];
      } else {
        StoreSame(conversations, sid);
      }
      conversations := conversations[sid := conversations[sid] + [UserTurn(message)]];
      StoreTwice(old(conversations), sid, before, before + [UserTurn(message)]);
      var history := conversations[sid];
      assert history[..|history| - 1] == before;
      var reply := ask(history[..|history| - 1], message);
      match reply {
        case Raised(e) =>
          assert AfterTurn(before, message, reply) == before + [UserTurn(message)];
          resp := Response(500, Error(e));
        case Answer(t) =>
          conversations := conversations[sid := conversations[sid] + [ModelTurn(t)]];
          assert AfterTurn(before, message, reply) == before + [UserTurn(message)] + [ModelTurn(t)];
          StoreTwice(old(conversations), sid, before + [UserTurn(message)], AfterTurn(before, message, reply));
          resp := Response(200, ChatReply(t, sid));
      }
      assert conversations == old(conversations)[sid := AfterTurn(before, message, reply)];
      TurnKeepsWellFormed(old(conversations), sid, message, reply);
    }

    /** clear_history (api/index.py:77-88): empties the session's history if it has one. */
    method ClearHistory(req: ClearRequest) returns (resp: Response)
      requires Valid()
      modifies this
      ensures Valid()
      ensures conversations == Cleared(old(conversations), SessionOf(req.sessionId))
      ensures resp == Response(200, Notice(HistoryCleared))
    {
      var sid := SessionOf(req.sessionId);
      if sid in conversations {
        conversations := conversations[sid := []];
      }
      resp := Response(200, Notice(HistoryCleared));
    }
  }
}
