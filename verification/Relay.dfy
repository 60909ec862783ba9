/**
 The relay client of Nostr NIP-01 and NIP-42: authenticate, publish and read back. The socket is the
 sequence of what it will deliver; a write may fail at any time.
 */
module Relay {
  import opened Wrappers

  datatype Json =
    | JNull
    | JBool(value: bool)
    | JNumber(number: int)
    | JString(text: string)
    | JArray(items: seq<Json>)
    | JObject(fields: map<string, Json>)

  datatype Message =
    | OkFrame(eventId: string, accepted: bool, message: string)
    | Auth(challenge: string)
    | Event(subId: string, event: Json)
    | EndOfStoredEvents(subId: string)
    | Closed(subId: string, message: string)
    | Notice(message: string)
    | Unhandled

  datatype Error =
    | Transport
    | MalformedFrame
    | Rejected(eventId: string, message: string)
    | AuthFailed
    | NotRetrievable(eventId: string)
    | Bridge

  // ---------- frames ----------

  function StringAt(items: seq<Json>, i: nat): string {
    if i < |items| && items[i].JString? then items[i].text else ""
  }

  // `frame` is the parsed JSON text, if it parses.
  function ParseFrame(frame: Option<Json>): Result<Message, Error> {
    if frame.None? || !frame.value.JArray? then Err(MalformedFrame)
    else
      var items := frame.value.items;
      var verb := StringAt(items, 0);
      Ok(
        if verb == "OK" then OkFrame(StringAt(items, 1), |items| > 2 && items[2] == JBool(true), StringAt(items, 3))
        else if verb == "AUTH" then Auth(StringAt(items, 1))
        else if verb == "EVENT" then Event(StringAt(items, 1), if |items| > 2 then items[2] else JNull)
        else if verb == "EOSE" then EndOfStoredEvents(StringAt(items, 1))
        else if verb == "CLOSED" then Closed(StringAt(items, 1), StringAt(items, 2))
        else if verb == "NOTICE" then Notice(StringAt(items, 1))
        else Unhandled)
  }

  // A frame is an acceptance of `id` exactly when its verb is OK, its second item is that id and its
  // third is the boolean true: a string, a number, null or nothing in third place is a refusal.
  lemma AcceptanceIsExplicit(frame: Option<Json>, id: string)
    ensures (exists m :: ParseFrame(frame) == Ok(OkFrame(id, true, m)))
       <==> && frame.Some? && frame.value.JArray? && |frame.value.items| > 2
            && frame.value.items[0] == JString("OK") && frame.value.items[2] == JBool(true)
            && StringAt(frame.value.items, 1) == id
  {
    if frame.Some? && frame.value.JArray? && |frame.value.items| > 2 && frame.value.items[0] == JString("OK")
      && frame.value.items[2] == JBool(true) && StringAt(frame.value.items, 1) == id
    {
      assert ParseFrame(frame) == Ok(OkFrame(id, true, StringAt(frame.value.items, 3)));
    }
  }

  // The frame of a message, as NIP-01 and NIP-42 write it.
  function Frame(m: Message): Json {
    match m
    case OkFrame(id, accepted, message) => JArray([JString("OK"), JString(id), JBool(accepted), JString(message)])
    case Auth(challenge) => JArray([JString("AUTH"), JString(challenge)])
    case Event(sub, event) => JArray([JString("EVENT"), JString(sub), event])
    case EndOfStoredEvents(sub) => JArray([JString("EOSE"), JString(sub)])
    case Closed(sub, message) => JArray([JString("CLOSED"), JString(sub), JString(message)])
    case Notice(message) => JArray([JString("NOTICE"), JString(message)])
    case Unhandled => JArray([])
  }

  // Every message is read back from its frame.
  lemma ParserInvertsRendering(m: Message)
    ensures ParseFrame(Some(Frame(m))) == Ok(m)
  {
  }

  // Only a frame that is not an array is malformed, and a verb none of the six begins is not handled.
  lemma OtherVerbsAreUnhandled(frame: Option<Json>)
    ensures ParseFrame(frame).Err? <==> frame.None? || !frame.value.JArray?
    ensures ParseFrame(frame) == Ok(Unhandled)
       <==> && frame.Some? && frame.value.JArray?
            && forall verb :: verb in ["OK", "AUTH", "EVENT", "EOSE", "CLOSED", "NOTICE"] ==>
                 !(frame.value.items != [] && frame.value.items[0] == JString(verb))
  {
    if frame.Some? && frame.value.JArray? && frame.value.items != [] && frame.value.items[0].JString? {
      var verb := frame.value.items[0].text;
      assert frame.value.items[0] == JString(verb);
    }
  }

  // ---------- the socket ----------

  datatype Item = Text(text: string) | CloseFrame | Other | Failure

  // What one delivered item means to a reader: nothing, a message, or the end of the conversation.
  datatype Seen = Skipped | Got(message: Message) | Broken(error: Error)

  type Parser = string -> Option<Json>

  function See(parse: Parser, item: Item): Seen {
    match item
    case Text(t) => (match ParseFrame(parse(t)) case Ok(m) => Got(m) case Err(e) => Broken(e))
    case CloseFrame => Broken(Transport)
    case Failure => Broken(Transport)
    case Other => Skipped
  }

  // ---------- the three conversations, as functions of what the socket delivers ----------

  // The answer and the position after it.
  function Publishing(parse: Parser, inbox: seq<Item>, pos: nat, want: string): (Result<string, Error>, nat)
    requires pos <= |inbox|
    decreases |inbox| - pos
  {
    if pos == |inbox| then (Err(Transport), pos)
    else
      match See(parse, inbox[pos])
      case Broken(e) => (Err(e), pos + 1)
      case Got(OkFrame(id, accepted, message)) =>
        if id != want then Publishing(parse, inbox, pos + 1, want)
        else (if accepted then Ok(message) else Err(Rejected(id, message)), pos + 1)
      case Got(Closed(_, message)) => (Err(Rejected(want, message)), pos + 1)
      case _ => Publishing(parse, inbox, pos + 1, want)
  }

  const SUB: string := "zb-verify"

  function HasId(event: Json, id: string): bool {
    event.JObject? && "id" in event.fields && event.fields["id"] == JString(id)
  }

  function Looking(parse: Parser, inbox: seq<Item>, pos: nat, id: string, found: bool): (Result<bool, Error>, nat)
    requires pos <= |inbox|
    decreases |inbox| - pos
  {
    if pos == |inbox| then (Err(Transport), pos)
    else
      match See(parse, inbox[pos])
      case Broken(e) => (Err(e), pos + 1)
      case Got(Event(sub, event)) => Looking(parse, inbox, pos + 1, id, found || (sub == SUB && HasId(event, id)))
      case Got(EndOfStoredEvents(sub)) =>
        if sub == SUB then (Ok(found), pos + 1) else Looking(parse, inbox, pos + 1, id, found)
      case Got(Closed(sub, _)) =>
        if sub == SUB then (Err(Transport), pos + 1) else Looking(parse, inbox, pos + 1, id, found)
      case _ => Looking(parse, inbox, pos + 1, id, found)
  }

  // Waiting for a message of one kind; only notices and unknown verbs may come before it.
  function Awaiting(parse: Parser, inbox: seq<Item>, pos: nat, challenge: bool): (Result<Message, Error>, nat)
    requires pos <= |inbox|
    decreases |inbox| - pos
  {
    if pos == |inbox| then (Err(Transport), pos)
    else
      match See(parse, inbox[pos])
      case Broken(e) => (Err(e), pos + 1)
      case Skipped => Awaiting(parse, inbox, pos + 1, challenge)
      case Got(m) =>
        if Wanted(m, challenge) then (Ok(m), pos + 1)
        else if m.Notice? || m.Unhandled? then Awaiting(parse, inbox, pos + 1, challenge)
        else (Err(AuthFailed), pos + 1)
  }

  // ---------- the client object ----------

  class RelayClient {
    const parse: Parser
    const inbox: seq<Item>
    var pos: nat
    var authenticated: bool

    ghost predicate Valid()
      reads this
    {
      pos <= |inbox|
    }

    constructor (parse: Parser, inbox: seq<Item>)
      ensures Valid() && pos == 0 && !authenticated && this.parse == parse && this.inbox == inbox
    {
      this.parse, this.inbox, pos, authenticated := parse, inbox, 0, false;
    }

    // Turning an event into text and writing it to the socket.
    method Send() returns (ok: bool)
    {
      ok := *;
    }

    // Building and signing the event that answers a challenge.
    method Sign() returns (ok: bool)
    {
      ok := *;
    }

    // The next text frame, parsed. `at` is where it was found.
    method ReadMessage() returns (r: Result<Message, Error>, ghost at: nat)
      requires Valid()
      modifies this`pos
      ensures Valid() && old(pos) <= at <= |inbox|
      ensures forall i :: old(pos) <= i < at ==> See(parse, inbox[i]) == Skipped
      ensures at == |inbox| ==> r == Err(Transport) && pos == at
      ensures at < |inbox| ==>
        pos == at + 1 && See(parse, inbox[at]) == match r case Ok(m) => Got(m) case Err(e) => Broken(e)
    {
      while pos < |inbox|
        invariant old(pos) <= pos <= |inbox|
        invariant forall i :: old(pos) <= i < pos ==> See(parse, inbox[i]) == Skipped
      {
        at := pos;
        var item := inbox[pos];
        pos := pos + 1;
        match item
        case Text(t) =>
          r := ParseFrame(parse(t));
          return;
        case CloseFrame =>
          r := Err(Transport);
          return;
        case Failure =>
          r := Err(Transport);
          return;
        case Other =>
      }
      r, at := Err(Transport), pos;
    }

    method Publish(id: string) returns (r: Result<string, Error>)
      requires Valid()
      modifies this`pos
      ensures Valid()
      // Either the write failed, or the frames decide.
      ensures (r, pos) == Publishing(parse, inbox, old(pos), id) || (r == Err(Transport) && pos == old(pos))
    {
      var sent := Send();
      if !sent {
        return Err(Transport);
      }
      while true
        invariant old(pos) <= pos <= |inbox|
        invariant Publishing(parse, inbox, pos, id) == Publishing(parse, inbox, old(pos), id)
        decreases |inbox| - pos
      {
        ghost var before := pos;
        var message, at := ReadMessage();
        PublishingSkips(parse, inbox, before, at, id);
        match message
        case Err(e) =>
          return Err(e);
        case Ok(OkFrame(eventId, accepted, text)) =>
          if eventId == id {
            if !accepted {
              return Err(Rejected(eventId, text));
            }
            return Ok(text);
          }
        case Ok(Closed(_, text)) =>
          return Err(Rejected(id, text));
        case _ =>
      }
    }

    method HasEvent(id: string) returns (r: Result<bool, Error>)
      requires Valid()
      modifies this`pos
      ensures Valid()
      ensures (r, pos) == Looking(parse, inbox, old(pos), id, false) || (r == Err(Transport) && pos == old(pos))
    {
      var sent := Send();
      if !sent {
        return Err(Transport);
      }
      var found := false;
      while true
        invariant old(pos) <= pos <= |inbox|
        invariant Looking(parse, inbox, pos, id, found) == Looking(parse, inbox, old(pos), id, false)
        decreases |inbox| - pos
      {
        ghost var before := pos;
        var message, at := ReadMessage();
        LookingSkips(parse, inbox, before, at, id, found);
        match message
        case Err(e) =>
          return Err(e);
        case Ok(Event(sub, event)) =>
          if sub == SUB && HasId(event, id) {
            found := true;
          }
        case Ok(EndOfStoredEvents(sub)) =>
          if sub == SUB {
            var _ := Send();
            return Ok(found);
          }
        case Ok(Closed(sub, _)) =>
          if sub == SUB {
            return Err(Transport);
          }
        case _ =>
      }
    }

    method Await(challenge: bool) returns (r: Result<Message, Error>)
      requires Valid()
      modifies this`pos
      ensures Valid() && (r, pos) == Awaiting(parse, inbox, old(pos), challenge)
    {
      while true
        invariant old(pos) <= pos <= |inbox|
        invariant Awaiting(parse, inbox, pos, challenge) == Awaiting(parse, inbox, old(pos), challenge)
        decreases |inbox| - pos
      {
        ghost var before := pos;
        var message, at := ReadMessage();
        AwaitingSkips(parse, inbox, before, at, challenge);
        match message
        case Err(e) =>
          return Err(e);
        case Ok(m) =>
          if Wanted(m, challenge) {
            return Ok(m);
          }
          if !m.Notice? && !m.Unhandled? {
            return Err(AuthFailed);
          }
      }
    }

    // Only an accepting OK that answers a challenge sets the flag, and it does unless the answer between
    // them cannot be built or written.
    method Authenticate() returns (r: Result<(), Error>)
      requires Valid()
      modifies this
      ensures Valid()
      ensures authenticated <==> old(authenticated) || r.Ok?
      ensures r.Ok? ==> exists c: nat, a: nat :: AcceptedAfter(parse, inbox, old(pos), c, a) && pos == a + 1
      ensures (exists c: nat, a: nat :: AcceptedAfter(parse, inbox, old(pos), c, a)) ==>
        r.Ok? || r == Err(Bridge) || r == Err(Transport)
      ensures (exists c: nat, a: nat :: RefusedAfter(parse, inbox, old(pos), c, a)) ==>
        r == Err(AuthFailed) || r == Err(Bridge) || r == Err(Transport)
    {
      hide Awaiting, Ignorable, See;
      var challenge := Await(true);
      AwaitingMeans(parse, inbox, old(pos), true);
      if challenge.Err? {
        return Err(challenge.error);
      }
      var signed := Sign();
      if !signed {
        return Err(Bridge);
      }
      var sent := Send();
      if !sent {
        return Err(Transport);
      }
      ghost var mid := pos;
      AwaitingMeans(parse, inbox, mid, false);
      var answer := Await(false);
      if answer.Err? {
        return Err(answer.error);
      }
      assert FoundAt(parse, inbox, mid, pos - 1, false);
      if !answer.value.accepted {
        return Err(AuthFailed);
      }
      authenticated := true;
      assert AcceptedAfter(parse, inbox, old(pos), mid - 1, pos - 1);
      r := Ok(());
    }

    // Success is two facts about what the relay sent, in this order: an accepting OK for the event before
    // any refusal or CLOSED, and the event itself before the end of the stored events. Given both, only a
    // failing write prevents it.
    method PublishVerified(id: string) returns (r: Result<(), Error>)
      requires Valid()
      modifies this`pos
      ensures Valid()
      ensures r.Ok? ==> exists a: nat :: AcceptedAt(parse, inbox, old(pos), a, id) && Served(parse, inbox, a + 1, id)
      ensures (exists a: nat :: AcceptedAt(parse, inbox, old(pos), a, id) && Served(parse, inbox, a + 1, id)) ==>
        r.Ok? || r == Err(Transport)
      ensures r == Err(NotRetrievable(id)) ==>
        exists a: nat :: AcceptedAt(parse, inbox, old(pos), a, id) && Withheld(parse, inbox, a + 1, id)
    {
      hide Publishing, Looking, See;
      var published := Publish(id);
      PublishingError(parse, inbox, old(pos), id);
      PublishedIffAccepted(parse, inbox, old(pos), id);
      if published.Err? {
        return Err(published.error);
      }
      ghost var mid := pos;
      LookedUpIffServed(parse, inbox, mid, id);
      LookingError(parse, inbox, mid, id, false);
      var served := HasEvent(id);
      if served.Err? {
        return Err(served.error);
      }
      if !served.value {
        return Err(NotRetrievable(id));
      }
      r := Ok(());
    }
  }

  // ---------- skipped items do not matter ----------

  lemma {:induction false} PublishingSkips(parse: Parser, inbox: seq<Item>, i: nat, j: nat, want: string)
    requires i <= j <= |inbox| && forall k :: i <= k < j ==> See(parse, inbox[k]) == Skipped
    ensures Publishing(parse, inbox, i, want) == Publishing(parse, inbox, j, want)
    decreases j - i
  {
    if i < j {
      PublishingSkips(parse, inbox, i + 1, j, want);
    }
  }

  lemma {:induction false} LookingSkips(parse: Parser, inbox: seq<Item>, i: nat, j: nat, id: string, found: bool)
    requires i <= j <= |inbox| && forall k :: i <= k < j ==> See(parse, inbox[k]) == Skipped
    ensures Looking(parse, inbox, i, id, found) == Looking(parse, inbox, j, id, found)
    decreases j - i
  {
    if i < j {
      LookingSkips(parse, inbox, i + 1, j, id, found);
    }
  }

  lemma {:induction false} AwaitingSkips(parse: Parser, inbox: seq<Item>, i: nat, j: nat, challenge: bool)
    requires i <= j <= |inbox| && forall k :: i <= k < j ==> See(parse, inbox[k]) == Skipped
    ensures Awaiting(parse, inbox, i, challenge) == Awaiting(parse, inbox, j, challenge)
    decreases j - i
  {
    if i < j {
      AwaitingSkips(parse, inbox, i + 1, j, challenge);
    }
  }

  // ---------- what success means ----------

  // Neither an answer about this event, nor a CLOSED, nor the end of the conversation.
  predicate Undecided(s: Seen, want: string) {
    s.Skipped? || (s.Got? && !(s.message.OkFrame? && s.message.eventId == want) && !s.message.Closed?)
  }

  // The first decisive item from `pos` on is an accepting OK for this event.
  ghost predicate AcceptedAt(parse: Parser, inbox: seq<Item>, pos: nat, a: nat, want: string) {
    && pos <= a < |inbox|
    && (exists m :: See(parse, inbox[a]) == Got(OkFrame(want, true, m)))
    && forall i :: pos <= i < a ==> Undecided(See(parse, inbox[i]), want)
  }

  lemma {:induction false} PublishedIffAccepted(parse: Parser, inbox: seq<Item>, pos: nat, want: string)
    requires pos <= |inbox|
    ensures Publishing(parse, inbox, pos, want).0.Ok? <==> exists a: nat :: AcceptedAt(parse, inbox, pos, a, want)
    ensures Publishing(parse, inbox, pos, want).0.Ok? ==>
      Publishing(parse, inbox, pos, want).1 > 0
        && AcceptedAt(parse, inbox, pos, Publishing(parse, inbox, pos, want).1 - 1, want)
      && Publishing(parse, inbox, pos, want).1 <= |inbox|
    decreases |inbox| - pos
  {
    if pos < |inbox| && Undecided(See(parse, inbox[pos]), want) {
      PublishedIffAccepted(parse, inbox, pos + 1, want);
      var next := pos + 1;
      if a: nat :| AcceptedAt(parse, inbox, next, a, want) {
        assert AcceptedAt(parse, inbox, pos, a, want);
      }
      if a: nat :| AcceptedAt(parse, inbox, pos, a, want) {
        assert AcceptedAt(parse, inbox, pos + 1, a, want);
      }
    } else if pos < |inbox| {
      assert forall a: nat :: AcceptedAt(parse, inbox, pos, a, want) ==> a == pos;
      if Publishing(parse, inbox, pos, want).0.Ok? {
        assert AcceptedAt(parse, inbox, pos, pos, want);
      }
    }
  }

  lemma {:induction false} PublishingError(parse: Parser, inbox: seq<Item>, pos: nat, want: string)
    requires pos <= |inbox|
    ensures Publishing(parse, inbox, pos, want).0.Err? ==> !Publishing(parse, inbox, pos, want).0.error.NotRetrievable?
    decreases |inbox| - pos
  {
    if pos < |inbox| && Undecided(See(parse, inbox[pos]), want) {
      PublishingError(parse, inbox, pos + 1, want);
    }
  }

  predicate IsEnd(s: Seen) {
    s.Got? && s.message == EndOfStoredEvents(SUB)
  }

  predicate KeepsLooking(s: Seen) {
    !s.Broken? && !IsEnd(s) && !(s.Got? && s.message.Closed? && s.message.subId == SUB)
  }

  // The first item from `pos` on that ends the lookup is the end of the stored events.
  ghost predicate EndsAt(parse: Parser, inbox: seq<Item>, pos: nat, e: nat) {
    pos <= e < |inbox| && IsEnd(See(parse, inbox[e])) && forall i :: pos <= i < e ==> KeepsLooking(See(parse, inbox[i]))
  }

  predicate Serves(s: Seen, id: string) {
    s.Got? && s.message.Event? && s.message.subId == SUB && HasId(s.message.event, id)
  }

  ghost predicate ServedBy(parse: Parser, inbox: seq<Item>, pos: nat, e: nat, id: string) {
    EndsAt(parse, inbox, pos, e) && exists k: nat :: pos <= k < e && Serves(See(parse, inbox[k]), id)
  }

  ghost predicate Served(parse: Parser, inbox: seq<Item>, pos: nat, id: string) {
    exists e: nat :: ServedBy(parse, inbox, pos, e, id)
  }

  // The stored events ended without it.
  ghost predicate Withheld(parse: Parser, inbox: seq<Item>, pos: nat, id: string) {
    exists e: nat :: EndsAt(parse, inbox, pos, e) && !ServedBy(parse, inbox, pos, e, id)
  }

  lemma {:induction false} LookingMeans(parse: Parser, inbox: seq<Item>, pos: nat, id: string, found: bool)
    requires pos <= |inbox|
    ensures Looking(parse, inbox, pos, id, found).0.Ok? <==> exists e: nat :: EndsAt(parse, inbox, pos, e)
    ensures forall e: nat :: EndsAt(parse, inbox, pos, e) ==>
      (Looking(parse, inbox, pos, id, found).0 == Ok(true) <==> found || ServedBy(parse, inbox, pos, e, id))
    decreases |inbox| - pos
  {
    if pos < |inbox| {
      hide See, HasId;
      var s := See(parse, inbox[pos]);
      if KeepsLooking(s) {
        LookingMeans(parse, inbox, pos + 1, id, found || Serves(s, id));
        assert Looking(parse, inbox, pos, id, found) == Looking(parse, inbox, pos + 1, id, found || Serves(s, id));
        var next := pos + 1;
        if e: nat :| EndsAt(parse, inbox, next, e) {
          assert EndsAt(parse, inbox, pos, e);
        }
        forall e: nat | EndsAt(parse, inbox, pos, e) ensures EndsAt(parse, inbox, pos + 1, e) {
        }
        forall e: nat | EndsAt(parse, inbox, pos, e)
          ensures ServedBy(parse, inbox, pos, e, id) <==> Serves(s, id) || ServedBy(parse, inbox, pos + 1, e, id)
        {
        }
      } else {
        assert forall e: nat :: EndsAt(parse, inbox, pos, e) ==> e == pos;
        assert IsEnd(s) ==> EndsAt(parse, inbox, pos, pos);
      }
    }
  }

  // The lookup says yes exactly when the event came before the end of the stored events, and says no
  // exactly when the end came without it.
  lemma LookedUpIffServed(parse: Parser, inbox: seq<Item>, pos: nat, id: string)
    requires pos <= |inbox|
    ensures Looking(parse, inbox, pos, id, false).0 == Ok(true) <==> Served(parse, inbox, pos, id)
    ensures Looking(parse, inbox, pos, id, false).0 == Ok(false)
       <==> Withheld(parse, inbox, pos, id)
  {
    LookingMeans(parse, inbox, pos, id, false);
    var answer := Looking(parse, inbox, pos, id, false).0;
    if answer.Ok? {
      var e: nat :| EndsAt(parse, inbox, pos, e);
      EndIsUnique(parse, inbox, pos, e);
      assert answer.value <==> ServedBy(parse, inbox, pos, e, id);
    }
  }

  lemma EndIsUnique(parse: Parser, inbox: seq<Item>, pos: nat, e: nat)
    requires EndsAt(parse, inbox, pos, e)
    ensures forall f: nat :: EndsAt(parse, inbox, pos, f) ==> f == e
  {
  }

  lemma {:induction false} LookingError(parse: Parser, inbox: seq<Item>, pos: nat, id: string, found: bool)
    requires pos <= |inbox|
    ensures Looking(parse, inbox, pos, id, found).0.Err? ==>
      !Looking(parse, inbox, pos, id, found).0.error.NotRetrievable?
    decreases |inbox| - pos
  {
    if pos < |inbox| && KeepsLooking(See(parse, inbox[pos])) {
      LookingError(parse, inbox, pos + 1, id, found || Serves(See(parse, inbox[pos]), id));
    }
  }

  predicate Wanted(m: Message, challenge: bool) {
    if challenge then m.Auth? else m.OkFrame?
  }

  // The first item from `pos` on that is more than a notice or an unknown verb is the one waited for.
  ghost predicate FoundAt(parse: Parser, inbox: seq<Item>, pos: nat, a: nat, challenge: bool) {
    && pos <= a < |inbox| && See(parse, inbox[a]).Got? && Wanted(See(parse, inbox[a]).message, challenge)
    && forall i :: pos <= i < a ==> Ignorable(See(parse, inbox[i]))
  }

  predicate Ignorable(s: Seen) {
    s.Skipped? || (s.Got? && (s.message.Notice? || s.message.Unhandled?))
  }

  // A challenge, then an accepting OK. The OK's event id is not looked at.
  ghost predicate AcceptedAfter(parse: Parser, inbox: seq<Item>, pos: nat, c: nat, a: nat) {
    && FoundAt(parse, inbox, pos, c, true) && FoundAt(parse, inbox, c + 1, a, false)
    && See(parse, inbox[a]).message.accepted
  }

  // A challenge, then an OK that does not accept.
  ghost predicate RefusedAfter(parse: Parser, inbox: seq<Item>, pos: nat, c: nat, a: nat) {
    && FoundAt(parse, inbox, pos, c, true) && FoundAt(parse, inbox, c + 1, a, false)
    && !See(parse, inbox[a]).message.accepted
  }

  // What a wait answers at the first item it cannot ignore.
  lemma {:induction false} AwaitingAnswers(parse: Parser, inbox: seq<Item>, pos: nat, a: nat, challenge: bool)
    requires pos <= a < |inbox| && !Ignorable(See(parse, inbox[a]))
    requires forall i :: pos <= i < a ==> Ignorable(See(parse, inbox[i]))
    ensures Awaiting(parse, inbox, pos, challenge).1 == a + 1
    ensures match See(parse, inbox[a])
      case Got(m) =>
        Awaiting(parse, inbox, pos, challenge).0
          == if (challenge && m.Auth?) || (!challenge && m.OkFrame?) then Ok(m) else Err(AuthFailed)
      case Broken(e) => Awaiting(parse, inbox, pos, challenge).0 == Err(e)
      case Skipped => false
    decreases a - pos
  {
    if pos < a {
      assert Ignorable(See(parse, inbox[pos]));
      AwaitingAnswers(parse, inbox, pos + 1, a, challenge);
    }
  }

  lemma {:induction false} AwaitingMeans(parse: Parser, inbox: seq<Item>, pos: nat, challenge: bool)
    requires pos <= |inbox|
    ensures var (r, end) := Awaiting(parse, inbox, pos, challenge);
      && pos <= end <= |inbox|
      && (forall a: nat :: FoundAt(parse, inbox, pos, a, challenge) <==> r.Ok? && end == a + 1)
      && (r.Ok? ==> end > pos && See(parse, inbox[end - 1]) == Got(r.value))
    decreases |inbox| - pos
  {
    if pos < |inbox| && Ignorable(See(parse, inbox[pos])) {
      AwaitingMeans(parse, inbox, pos + 1, challenge);
      forall a: nat ensures FoundAt(parse, inbox, pos, a, challenge) <==> FoundAt(parse, inbox, pos + 1, a, challenge) {
      }
    } else if pos < |inbox| {
      assert forall a: nat :: FoundAt(parse, inbox, pos, a, challenge) ==> a == pos;
    }
  }

  // The first OK after a challenge is the acceptance of the event that answers it exactly when it accepts
  // and names that event.
  lemma OwnAcceptanceIffNamed(parse: Parser, inbox: seq<Item>, pos: nat, c: nat, a: nat, id: string)
    requires FoundAt(parse, inbox, pos, c, true) && FoundAt(parse, inbox, c + 1, a, false)
    ensures AcceptedAt(parse, inbox, c + 1, a, id)
       <==> See(parse, inbox[a]).message.accepted && See(parse, inbox[a]).message.eventId == id
  {
    forall i | c + 1 <= i < a ensures Undecided(See(parse, inbox[i]), id) {
      assert Ignorable(See(parse, inbox[i]));
    }
    var m := See(parse, inbox[a]).message;
    assert See(parse, inbox[a]) == Got(OkFrame(m.eventId, m.accepted, m.message));
  }

  // It need not name it: a conversation that authenticates although no OK is about the event sent.
  lemma OtherAcceptanceAuthenticates(id: string, other: string) returns (parse: Parser, inbox: seq<Item>)
    requires id != other
    ensures AcceptedAfter(parse, inbox, 0, 0, 1)
    ensures forall i, ok, m :: 0 <= i < |inbox| ==> See(parse, inbox[i]) != Got(OkFrame(id, ok, m))
  {
    var challenge := JArray([JString("AUTH"), JString("c")]);
    var answer := JArray([JString("OK"), JString(other), JBool(true)]);
    parse := text => if text == "challenge" then Some(challenge) else Some(answer);
    inbox := [Text("challenge"), Text("answer")];
    assert See(parse, inbox[0]) == Got(Auth("c"));
    assert See(parse, inbox[1]) == Got(OkFrame(other, true, ""));
  }

  // ---------- with an honest relay ----------

  // The relay serves only what it has stored.
  ghost predicate ServesOnlyStored(parse: Parser, inbox: seq<Item>, stored: set<string>) {
    forall k, id :: 0 <= k < |inbox| && Serves(See(parse, inbox[k]), id) ==> id in stored
  }

  // Then what PublishVerified reports as a success is stored.
  lemma VerifiedMeansStored(parse: Parser, inbox: seq<Item>, stored: set<string>, pos: nat, a: nat, id: string)
    requires ServesOnlyStored(parse, inbox, stored)
    requires AcceptedAt(parse, inbox, pos, a, id) && Served(parse, inbox, a + 1, id)
    ensures id in stored
  {
    var e: nat :| ServedBy(parse, inbox, a + 1, e, id);
    var k: nat :| a + 1 <= k < e && Serves(See(parse, inbox[k]), id);
  }

  // ---------- over raw frames ----------

  // The array an item of the conversation is parsed to.
  ghost predicate IsArray(parse: Parser, item: Item, items: seq<Json>) {
    item.Text? && parse(item.text) == Some(JArray(items))
  }

  // An item serves an event of the lookup exactly when it is an EVENT frame of the lookup's subscription
  // whose third item is an object with that id.
  lemma ServesRaw(parse: Parser, item: Item, id: string)
    ensures Serves(See(parse, item), id) <==> exists items: seq<Json> ::
      && IsArray(parse, item, items) && |items| > 2
      && items[0] == JString("EVENT") && items[1] == JString("zb-verify")
      && items[2].JObject? && "id" in items[2].fields && items[2].fields["id"] == JString(id)
  {
    if Serves(See(parse, item), id) {
      assert IsArray(parse, item, parse(item.text).value.items);
    }
  }

  // And it ends the stored events exactly when it is an EOSE frame of that subscription.
  lemma EndsRaw(parse: Parser, item: Item)
    ensures IsEnd(See(parse, item)) <==> exists items: seq<Json> ::
      IsArray(parse, item, items) && |items| > 1 && items[0] == JString("EOSE") && items[1] == JString("zb-verify")
  {
    if IsEnd(See(parse, item)) {
      assert IsArray(parse, item, parse(item.text).value.items);
    }
  }

  // What stops a lookup early: the end of the socket, a text that is no JSON array, a CLOSED of its own.
  lemma StopsRaw(parse: Parser, item: Item)
    ensures !KeepsLooking(See(parse, item)) && !IsEnd(See(parse, item)) <==>
      || item == CloseFrame || item == Failure
      || (item.Text? && (parse(item.text).None? || !parse(item.text).value.JArray?))
      || exists items: seq<Json> :: IsArray(parse, item, items)
           && |items| > 1 && items[0] == JString("CLOSED") && items[1] == JString("zb-verify")
  {
    if item.Text? && parse(item.text).Some? && parse(item.text).value.JArray? {
      assert IsArray(parse, item, parse(item.text).value.items);
    }
  }

  // An item that answers a publication: an OK for the event, a CLOSED of any subscription, or the end.
  lemma DecidesRaw(parse: Parser, item: Item, id: string)
    ensures !Undecided(See(parse, item), id) <==>
      || item == CloseFrame || item == Failure
      || (item.Text? && (parse(item.text).None? || !parse(item.text).value.JArray?))
      || (exists items: seq<Json> :: IsArray(parse, item, items) && items != [] && items[0] == JString("CLOSED"))
      || (exists items: seq<Json> :: IsArray(parse, item, items)
            && items != [] && items[0] == JString("OK") && StringAt(items, 1) == id)
  {
    if item.Text? && parse(item.text).Some? && parse(item.text).value.JArray? {
      assert IsArray(parse, item, parse(item.text).value.items);
    }
  }

  // What a decided publication answers: the relay's text, its refusal, or the failure.
  lemma {:induction false} PublishingAnswers(parse: Parser, inbox: seq<Item>, pos: nat, a: nat, want: string)
    requires pos <= a < |inbox| && !Undecided(See(parse, inbox[a]), want)
    requires forall i :: pos <= i < a ==> Undecided(See(parse, inbox[i]), want)
    ensures Publishing(parse, inbox, pos, want).1 == a + 1
    ensures match See(parse, inbox[a])
      case Got(OkFrame(_, accepted, text)) =>
        Publishing(parse, inbox, pos, want).0 == if accepted then Ok(text) else Err(Rejected(want, text))
      case Got(Closed(_, text)) => Publishing(parse, inbox, pos, want).0 == Err(Rejected(want, text))
      case Broken(e) => Publishing(parse, inbox, pos, want).0 == Err(e) && e in {Transport, MalformedFrame}
      case _ => false
    decreases a - pos
  {
    if pos < a {
      assert Undecided(See(parse, inbox[pos]), want);
      PublishingAnswers(parse, inbox, pos + 1, a, want);
    }
  }

  // What a lookup answers at the item that stops it.
  lemma {:induction false} LookingAnswers(parse: Parser, inbox: seq<Item>, pos: nat, a: nat, id: string, found: bool)
    requires pos <= a < |inbox| && !KeepsLooking(See(parse, inbox[a]))
    requires forall i :: pos <= i < a ==> KeepsLooking(See(parse, inbox[i]))
    ensures Looking(parse, inbox, pos, id, found).1 == a + 1
    ensures match See(parse, inbox[a])
      case Broken(e) => Looking(parse, inbox, pos, id, found).0 == Err(e)
      case Got(Closed(_, _)) => Looking(parse, inbox, pos, id, found).0 == Err(Transport)
      case _ => Looking(parse, inbox, pos, id, found).0.Ok?
    decreases a - pos
  {
    if pos < a {
      var s := See(parse, inbox[pos]);
      assert KeepsLooking(s);
      LookingAnswers(parse, inbox, pos + 1, a, id, found || Serves(s, id));
      assert Looking(parse, inbox, pos, id, found) == Looking(parse, inbox, pos + 1, id, found || Serves(s, id));
    }
  }

  // With a relay that also serves everything it has stored, the read-back answers exactly whether the
  // event is stored, whatever the relay's OK said.
  lemma ReadBackTellsStored(parse: Parser, inbox: seq<Item>, stored: set<string>, pos: nat, e: nat, id: string)
    requires ServesOnlyStored(parse, inbox, stored) && EndsAt(parse, inbox, pos, e)
    requires id in stored ==> ServedBy(parse, inbox, pos, e, id)
    ensures Looking(parse, inbox, pos, id, false).0 == Ok(id in stored)
  {
    LookingMeans(parse, inbox, pos, id, false);
    var answer := Looking(parse, inbox, pos, id, false).0;
    assert answer.Ok? && (answer.value <==> ServedBy(parse, inbox, pos, e, id));
    if ServedBy(parse, inbox, pos, e, id) {
      var k: nat :| pos <= k < e && Serves(See(parse, inbox[k]), id);
    }
  }
}
