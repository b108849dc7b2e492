/** The stored conversations of the console: removing the empty ones, and the requests that run in them. */
module Conversations {
  import opened Basics

  datatype Conversation = Conversation(title: string, summary: string, messages: seq<string>)

  predicate Placeholder(c: Conversation) {
    "New Chat" <= c.title && c.summary == "Empty thread" && c.messages == []
  }

  // ---- compact_placeholder_conversations

  /** The conversations without the placeholders after the first; `seen` when there was one before. */
  function Kept(s: seq<Conversation>, seen: bool): seq<Conversation> {
    if s == [] then []
    else if Placeholder(s[0]) && seen then Kept(s[1..], true)
    else [s[0]] + Kept(s[1..], seen || Placeholder(s[0]))
  }

  predicate HasPlaceholder(s: seq<Conversation>) { exists i :: 0 <= i < |s| && Placeholder(s[i]) }

  /** Whether the conversation at an index is kept. */
  predicate StaysAt(s: seq<Conversation>, i: nat)
    requires i < |s|
  {
    !Placeholder(s[i]) || !HasPlaceholder(s[..i])
  }

  function Placeholders(s: seq<Conversation>): nat {
    if s == [] then 0 else (if Placeholder(s[0]) then 1 else 0) + Placeholders(s[1..])
  }

  function Others(s: seq<Conversation>): seq<Conversation> {
    if s == [] then [] else (if Placeholder(s[0]) then [] else [s[0]]) + Others(s[1..])
  }

  lemma {:induction false} KeptConcat(s: seq<Conversation>, t: seq<Conversation>, seen: bool)
    ensures Kept(s + t, seen) == Kept(s, seen) + Kept(t, seen || HasPlaceholder(s))
    decreases |s|
  {
    if s == [] {
      assert s + t == t;
    } else {
      HasPlaceholderTail(s);
      hide Placeholder, HasPlaceholder;
      KeptConcat(s[1..], t, seen || Placeholder(s[0]));
      assert (s + t)[0] == s[0] && (s + t)[1..] == s[1..] + t;
      var a, b := Kept(s[1..], seen || Placeholder(s[0])), Kept(t, seen || HasPlaceholder(s));
      assert [s[0]] + (a + b) == ([s[0]] + a) + b;
    }
  }

  lemma HasPlaceholderTail(s: seq<Conversation>)
    requires s != []
    ensures HasPlaceholder(s) <==> Placeholder(s[0]) || HasPlaceholder(s[1..])
  {
    if HasPlaceholder(s) && !Placeholder(s[0]) {
      var i :| 0 <= i < |s| && Placeholder(s[i]);
      assert s[1..][i - 1] == s[i];
    }
    if HasPlaceholder(s[1..]) {
      var i :| 0 <= i < |s| - 1 && Placeholder(s[1..][i]);
      assert s[i + 1] == s[1..][i];
    }
  }

  /** What is kept: every other conversation, in order, and at most one placeholder. */
  lemma {:induction false} KeptKeeps(s: seq<Conversation>, seen: bool)
    ensures Others(Kept(s, seen)) == Others(s)
    ensures Placeholders(Kept(s, seen)) == if !seen && HasPlaceholder(s) then 1 else 0
    decreases |s|
  {
    if s != [] {
      KeptKeeps(s[1..], seen || Placeholder(s[0]));
      HasPlaceholderTail(s);
      var k := Kept(s, seen);
      if !(Placeholder(s[0]) && seen) {
        assert k[0] == s[0] && k[1..] == Kept(s[1..], seen || Placeholder(s[0]));
      }
    }
  }

  /** The conversations in which something has been said, or which have been named or summed up. */
  function Used(s: seq<Conversation>): seq<Conversation> {
    if s == [] then []
    else
      var unused := s[0].messages == [] && s[0].summary == "Empty thread" && "New Chat" <= s[0].title;
      (if unused then [] else [s[0]]) + Used(s[1..])
  }

  /** None of these is lost or moved, and at most one other is kept beside them. */
  lemma {:induction false} UsedAreKept(s: seq<Conversation>, seen: bool)
    ensures Used(Kept(s, seen)) == Used(s)
    ensures |Kept(s, seen)| <= |Used(s)| + if seen then 0 else 1
  {
    if s != [] {
      UsedAreKept(s[1..], seen || Placeholder(s[0]));
      var k := Kept(s, seen);
      if !(Placeholder(s[0]) && seen) {
        assert k[0] == s[0] && k[1..] == Kept(s[1..], seen || Placeholder(s[0]));
      }
    }
  }

  /** What is kept, told from the first placeholder: everything up to it, and behind it all but placeholders. */
  lemma {:induction false} KeptIs(s: seq<Conversation>, k: nat)
    requires k < |s| && Placeholder(s[k]) && forall i | 0 <= i < k :: !Placeholder(s[i])
    ensures Kept(s, false) == s[..k + 1] + Others(s[k + 1..])
  {
    assert s == s[..k] + s[k..];
    KeptConcat(s[..k], s[k..], false);
    KeptAll(s[..k], false);
    assert !HasPlaceholder(s[..k]);
    assert s[k..][0] == s[k] && s[k..][1..] == s[k + 1..];
    KeptSeen(s[k + 1..]);
    assert s[..k + 1] == s[..k] + [s[k]];
  }

  lemma {:induction false} KeptSeen(s: seq<Conversation>)
    ensures Kept(s, true) == Others(s)
  {
    if s != [] { KeptSeen(s[1..]); }
  }

  /** Without placeholders everything is kept. */
  lemma {:induction false} KeptAll(s: seq<Conversation>, seen: bool)
    requires forall i | 0 <= i < |s| :: !Placeholder(s[i])
    ensures Kept(s, seen) == s
  {
    if s != [] {
      KeptAll(s[1..], seen);
      assert s == [s[0]] + s[1..];
    }
  }

  /** Keeping again keeps everything. */
  lemma {:induction false} KeptTwice(s: seq<Conversation>, seen: bool)
    ensures Kept(Kept(s, seen), seen) == Kept(s, seen)
    decreases |s|
  {
    if s != [] {
      KeptTwice(s[1..], seen || Placeholder(s[0]));
      var k := Kept(s, seen);
      if !(Placeholder(s[0]) && seen) {
        assert k[0] == s[0] && k[1..] == Kept(s[1..], seen || Placeholder(s[0]));
      }
    }
  }

  /** A conversation that stays is found behind those kept before it. */
  lemma KeptAt(s: seq<Conversation>, i: nat)
    requires i < |s| && StaysAt(s, i)
    ensures |Kept(s[..i], false)| < |Kept(s, false)| && Kept(s, false)[|Kept(s[..i], false)|] == s[i]
  {
    assert s == s[..i] + s[i..];
    KeptConcat(s[..i], s[i..], false);
    assert s[i..][0] == s[i];
  }

  /** The compacted state: conversations and active index. */
  function Compacted(s: seq<Conversation>, active: nat): (seq<Conversation>, nat) {
    if |s| <= 1 then (s, 0)
    else (Kept(s, false), if active < |s| && StaysAt(s, active) then |Kept(s[..active], false)| else 0)
  }

  lemma KeptSome(s: seq<Conversation>)
    requires s != []
    ensures Kept(s, false) != []
  {
  }

  /** The active index is one of the list, and still that of the same conversation when this is kept. */
  lemma CompactedActive(s: seq<Conversation>, active: nat)
    requires s != []
    ensures var (k, a) := Compacted(s, active);
            && a < |k| && (active < |s| && StaysAt(s, active) ==> k[a] == s[active])
            && (active >= |s| || !StaysAt(s, active) ==> a == 0)
  {
    if |s| > 1 {
      KeptSome(s);
      if active < |s| && StaysAt(s, active) { KeptAt(s, active); }
    }
  }

  lemma CompactedTwice(s: seq<Conversation>, active: nat)
    ensures var (k, a) := Compacted(s, active); Compacted(k, a) == (k, a)
  {
    var (k, a) := Compacted(s, active);
    if |s| > 1 {
      KeptTwice(s, false);
      KeptSome(s);
      CompactedActive(s, active);
      if |k| > 1 { AllStay(k, a); }
    }
  }

  /** Where nothing is dropped everything stays where it is. */
  lemma AllStay(k: seq<Conversation>, a: nat)
    requires Kept(k, false) == k && a < |k|
    ensures StaysAt(k, a) && |Kept(k[..a], false)| == a
  {
    assert k == k[..a] + k[a..];
    KeptConcat(k[..a], k[a..], false);
    KeptLength(k[..a], false);
    KeptLength(k[a..], HasPlaceholder(k[..a]));
    assert k[a..][0] == k[a];
    if !StaysAt(k, a) { KeptLength(k[a..][1..], true); }
  }

  lemma {:induction false} KeptLength(s: seq<Conversation>, seen: bool)
    ensures |Kept(s, seen)| <= |s|
    decreases |s|
  {
    if s != [] { KeptLength(s[1..], seen || Placeholder(s[0])); }
  }

  // ---- Replies

  /** A message of the user; the others are replies. */
  predicate IsUser(message: string) { "User: " <= message }

  function UserMessages(messages: seq<string>): seq<string> {
    if messages == [] then []
    else UserMessages(messages[..|messages| - 1]) +
         (if IsUser(messages[|messages| - 1]) then [messages[|messages| - 1]] else [])
  }

  /** `set_latest_ai_reply` on one conversation. */
  function Replied(c: Conversation, reply: string, summary: string): Conversation {
    c.(messages := if c.messages == [] then ["AI: " + reply] else c.messages[..|c.messages| - 1] + ["AI: " + reply],
       summary := summary)
  }

  lemma RepliesAreNotUser(reply: string)
    ensures !IsUser("AI: " + reply)
  {
    assert ("AI: " + reply)[0] == 'A' && "User: "[0] == 'U';
  }

  /** Replacing a reply, or answering where nothing was said, leaves what the user said. */
  lemma RepliedKeepsUser(c: Conversation, reply: string, summary: string)
    ensures c.messages != [] && IsUser(c.messages[|c.messages| - 1]) <==>
              UserMessages(Replied(c, reply, summary).messages) != UserMessages(c.messages)
  {
    RepliesAreNotUser(reply);
    var m, r := c.messages, Replied(c, reply, summary).messages;
    if m == [] {
      assert r[..0] == [];
    } else {
      assert r[..|r| - 1] == m[..|m| - 1];
      var front, last := UserMessages(m[..|m| - 1]), m[|m| - 1];
      assert IsUser(last) ==> |front + [last]| != |front|;
    }
  }

  // ---- The console

  /** A request that runs: the conversation it writes to and what has arrived. */
  datatype Run = Run(index: nat, accumulated: string)

  const PENDING := "AI: [pending response from daemon]"

  /** Up to entry k nothing has changed in conversation i. */
  predicate SameBefore(s: seq<Conversation>, t: seq<Conversation>, i: nat, k: nat) {
    && i < |s| == |t| && k < |s[i].messages| == |t[i].messages|
    && s[i].messages[..k] == t[i].messages[..k]
  }

  /** The entry says this, and the conversation is summed up so. */
  predicate EntryIs(s: seq<Conversation>, i: nat, k: nat, message: string, summary: string) {
    i < |s| && k < |s[i].messages| && s[i].messages[k] == message && s[i].summary == summary
  }

  class Console {
    var conversations: seq<Conversation>
    var active: nat
    var sendEnabled: bool
    var run: Option<Run>
    /** Where the entry is that the running request has pushed. */
    ghost var own: Option<nat>

    /** Sending is off exactly while a request runs; the last message of its conversation is its own entry. With
        no conversation to push to there is none, and no message of the user in the one it then writes to. */
    ghost predicate Valid()
      reads this
    {
      && (sendEnabled <==> run.None?)
      && (run.Some? ==>
            match own
            case Some(k) =>
              && run.value.index < |conversations| && k + 1 == |conversations[run.value.index].messages|
              && !IsUser(conversations[run.value.index].messages[k])
            case None =>
              run.value.index == 0 && (conversations == [] || UserMessages(conversations[0].messages) == []))
    }

    /** Only the running request's entry differs; all that the user said is there. */
    twostate predicate OnlyOwnEntryChanged()
      reads this
    {
      && |conversations| == |old(conversations)|
      && (forall i | 0 <= i < |conversations| ::
            UserMessages(conversations[i].messages) == UserMessages(old(conversations)[i].messages))
      && (forall i | 0 <= i < |conversations| :: conversations[i].title == old(conversations)[i].title)
      && (forall i | 0 <= i < |conversations| && old(run).Some? && i != old(run).value.index ::
            conversations[i] == old(conversations)[i])
      && (old(run).Some? && old(own).Some? ==>
            SameBefore(old(conversations), conversations, old(run).value.index, old(own).value))
    }

    constructor (conversations: seq<Conversation>, active: nat)
      ensures Valid() && run.None?
      ensures this.conversations == Compacted(conversations, active).0 && this.active == Compacted(conversations, active).1
    {
      this.conversations, this.active := conversations, active;
      sendEnabled, run, own := true, None, None;
      new;
      Compact();
    }

    method Compact()
      requires Valid() && run.None?
      modifies `conversations, `active
      ensures Valid()
      ensures conversations == Compacted(old(conversations), old(active)).0
      ensures active == Compacted(old(conversations), old(active)).1
    {
      if |conversations| <= 1 {
        active := 0;
        return;
      }
      var kept, activeIndex, keptFirst := [], None, false;
      var index := 0;
      while index < |conversations|
        invariant index <= |conversations| && conversations == old(conversations) && active == old(active)
        invariant kept == Kept(conversations[..index], false) && keptFirst == HasPlaceholder(conversations[..index])
        invariant activeIndex ==
                  if active < index && StaysAt(conversations, active) then Some(|Kept(conversations[..active], false)|) else None
      {
        var conversation := conversations[index];
        KeptNext(conversations, index);
        var placeholder := Placeholder(conversation);
        var keep := !placeholder || !keptFirst;
        if placeholder { keptFirst := true; }
        if keep {
          if index == active { activeIndex := Some(|kept|); }
          kept := kept + [conversation];
        }
        index := index + 1;
      }
      assert conversations[..index] == conversations;
      KeptSome(conversations);
      conversations := kept;
      active := if activeIndex.Some? then activeIndex.value else 0;
    }

    method SetLatestReply(index: nat, reply: string, summary: string)
      modifies `conversations
      ensures conversations == if index < |old(conversations)|
                               then old(conversations)[index := Replied(old(conversations)[index], reply, summary)]
                               else old(conversations)
    {
      if index < |conversations| {
        conversations := conversations[index := Replied(conversations[index], reply, summary)];
      }
    }

    /** Starts a request unless the prompt is blank or one is running. */
    method Dispatch(prompt: string, source: string, blank: string -> bool) returns (sent: bool)
      requires Valid()
      modifies this
      ensures Valid() && sent == (old(sendEnabled) && !blank(prompt))
      ensures !sent ==> conversations == old(conversations) && run == old(run) && own == old(own)
      ensures sent ==> run.Some? && run.value.accumulated == "" && |conversations| == |old(conversations)|
      ensures sent && conversations != [] ==>
                var i := run.value.index;
                && i == (if old(active) < |conversations| then old(active) else |conversations| - 1)
                && conversations[i].messages == old(conversations)[i].messages + ["User: " + prompt, PENDING]
                && conversations[i].title == old(conversations)[i].title
                && conversations[i].summary == "Waiting for " + source + " response"
                && own == Some(|conversations[i].messages| - 1)
                && forall j | 0 <= j < |conversations| && j != i :: conversations[j] == old(conversations)[j]
    {
      hide IsUser, UserMessages;
      if blank(prompt) || !sendEnabled { return false; }
      var last := if |conversations| == 0 then 0 else |conversations| - 1;
      var index := if active < last then active else last;
      own := None;
      if index < |conversations| {
        var c := conversations[index];
        PendingIsReply();
        conversations := conversations[index := Conversation(
          c.title, "Waiting for " + source + " response", c.messages + ["User: " + prompt, PENDING])];
        own := Some(|c.messages| + 1);
      }
      sendEnabled, run := false, Some(Run(index, ""));
      sent := true;
    }

    /** A piece of the reply. */
    method OnDelta(content: string)
      requires Valid() && run.Some?
      modifies this
      ensures Valid() && OnlyOwnEntryChanged() && own == old(own)
      ensures run == Some(old(run).value.(accumulated := old(run).value.accumulated + content))
      ensures own.Some? ==>
                EntryIs(conversations, run.value.index, own.value, "AI: " + run.value.accumulated, "Streaming response")
    {
      run := Some(run.value.(accumulated := run.value.accumulated + content));
      Reply(run.value.accumulated, "Streaming response");
    }

    /** The end of a request: the whole reply, an error, or what had arrived before it was cancelled. */
    method OnEnd(reply: string, summary: string)
      requires Valid() && run.Some?
      modifies this
      ensures Valid() && OnlyOwnEntryChanged() && run.None?
      ensures old(own).Some? ==> EntryIs(conversations, old(run).value.index, old(own).value, "AI: " + reply, summary)
    {
      Reply(reply, summary);
      sendEnabled, run := true, None;
    }

    method OnCancelled()
      requires Valid() && run.Some?
      modifies this
      ensures Valid() && OnlyOwnEntryChanged() && run.None?
      ensures old(own).Some? ==>
                EntryIs(conversations, old(run).value.index, old(own).value, "AI: " +
                        (if old(run).value.accumulated == "" then "[response cancelled]" else old(run).value.accumulated),
                        "Response cancelled")
    {
      OnEnd(if run.value.accumulated == "" then "[response cancelled]" else run.value.accumulated, "Response cancelled");
    }

    /** The channel closed before the end: the entry stays as it is. */
    method OnDisconnected()
      requires Valid() && run.Some?
      modifies this
      ensures Valid() && conversations == old(conversations) && run.None?
    {
      sendEnabled, run := true, None;
    }

    method Reply(reply: string, summary: string)
      requires Valid() && run.Some?
      modifies `conversations
      ensures Valid() && OnlyOwnEntryChanged()
      ensures own.Some? ==> EntryIs(conversations, run.value.index, own.value, "AI: " + reply, summary)
    {
      var index := run.value.index;
      RepliesAreNotUser(reply);
      if index < |conversations| {
        var c := conversations[index];
        if c.messages != [] { LastUser(c.messages); }
        RepliedKeepsUser(c, reply, summary);
      }
      SetLatestReply(index, reply, summary);
    }

    /** Reuses the last placeholder, or adds one at the end. */
    method NewConversation()
      requires Valid()
      modifies `conversations, `active
      ensures Valid() && old(conversations) <= conversations && active < |conversations|
      ensures Placeholder(conversations[active]) && forall k | active < k < |conversations| :: !Placeholder(conversations[k])
      ensures |conversations| == |old(conversations)| + (if HasPlaceholder(old(conversations)) then 0 else 1)
    {
      var i := |conversations|;
      while i > 0
        invariant 0 <= i <= |conversations| && conversations == old(conversations)
        invariant forall k | i <= k < |conversations| :: !Placeholder(conversations[k])
      {
        i := i - 1;
        if Placeholder(conversations[i]) {
          active := i;
          return;
        }
      }
      conversations := conversations + [Conversation("New Chat", "Empty thread", [])];
      active := |conversations| - 1;
    }

    method Load(index: nat)
      requires Valid()
      modifies `active
      ensures Valid() && active == index
    {
      active := index;
    }
  }

  lemma PendingIsReply()
    ensures !IsUser(PENDING)
  {
    assert PENDING[0] == 'A' && "User: "[0] == 'U';
  }

  lemma LastUser(messages: seq<string>)
    requires messages != []
    ensures UserMessages(messages) == [] ==> !IsUser(messages[|messages| - 1])
  {
  }

  lemma KeptNext(s: seq<Conversation>, i: nat)
    requires i < |s|
    ensures Kept(s[..i + 1], false) == Kept(s[..i], false) + (if StaysAt(s, i) then [s[i]] else [])
    ensures HasPlaceholder(s[..i + 1]) <==> HasPlaceholder(s[..i]) || Placeholder(s[i])
  {
    assert s[..i + 1] == s[..i] + [s[i]];
    KeptConcat(s[..i], [s[i]], false);
    var t := s[..i + 1];
    if HasPlaceholder(s[..i]) {
      var k :| 0 <= k < i && Placeholder(s[..i][k]);
      assert t[k] == s[..i][k];
    }
    if HasPlaceholder(t) {
      var k :| 0 <= k < |t| && Placeholder(t[k]);
      assert k < i ==> s[..i][k] == t[k];
    }
    assert t[i] == s[i];
  }
}
