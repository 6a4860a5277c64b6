/** Context windowing: which stored messages are replayed to the model and how
    they are rendered. The tokenizer is a parameter `count` (any function from
    text to a token count, answering for every text); nothing is assumed about
    its values, in particular they need not be additive over concatenation, so
    the budget is accounted as the sum of the per-message counts, as the
    source does. */
module TokenManager {
  import opened Types

  /** The token budget the application configures: the model's input limit. */
  const ModelMaxInputToken: int := 128000

  /** One message as it appears in the replayed history: "{role}: {content}\n". */
  function Render(m: ChatMessage): (r: string)
    ensures |r| == |m.role| + |m.content| + 3
    ensures r[..|m.role|] == m.role && r[|r| - 1] == '\n'
  {
    m.role + ": " + m.content + "\n"
  }

  /** The rendered messages, concatenated in order. */
  function RenderAll(ms: seq<ChatMessage>): string
  {
    if ms == [] then "" else Render(ms[0]) + RenderAll(ms[1..])
  }

  /** Sum of the per-message token counts of `ms`. */
  function Tokens(count: string -> nat, ms: seq<ChatMessage>): nat
  {
    if ms == [] then 0 else count(Render(ms[0])) + Tokens(count, ms[1..])
  }

  /** The `n` newest messages, oldest first. */
  function Newest(ms: seq<ChatMessage>, n: nat): seq<ChatMessage>
    requires n <= |ms|
  {
    ms[|ms| - n..]
  }

  /** Declarative description of the window: the `n` newest messages fit the
      budget (trivially so when none is taken), and taking one message more
      would not. */
  ghost predicate IsWindow(count: string -> nat, ms: seq<ChatMessage>, maxTokens: int, n: nat)
  {
    && n <= |ms|
    && (n == 0 || Tokens(count, Newest(ms, n)) <= maxTokens)
    && (n < |ms| ==> Tokens(count, Newest(ms, n + 1)) > maxTokens)
  }

  /** How many of the newest messages the walk from the newest end accepts with
      `budget` tokens left: it stops at the first message that does not fit. */
  function WindowSize(count: string -> nat, ms: seq<ChatMessage>, budget: int): (n: nat)
    ensures n <= |ms|
  {
    if ms == [] then 0
    else
      var t := count(Render(ms[|ms| - 1]));
      if t > budget then 0 else 1 + WindowSize(count, ms[..|ms| - 1], budget - t)
  }

  /** The text `format_chat_history` produces. */
  function FormattedHistory(count: string -> nat, ms: seq<ChatMessage>, maxTokens: int): string
  {
    RenderAll(Newest(ms, WindowSize(count, ms, maxTokens)))
  }

  lemma {:induction false} TokensAppend(count: string -> nat, a: seq<ChatMessage>, b: seq<ChatMessage>)
    ensures Tokens(count, a + b) == Tokens(count, a) + Tokens(count, b)
  {
    if a != [] {
      assert (a + b)[1..] == a[1..] + b;
      TokensAppend(count, a[1..], b);
    } else {
      assert a + b == b;
    }
  }

  lemma {:induction false} RenderAllAppend(a: seq<ChatMessage>, b: seq<ChatMessage>)
    ensures RenderAll(a + b) == RenderAll(a) + RenderAll(b)
  {
    if a != [] {
      assert (a + b)[1..] == a[1..] + b;
      RenderAllAppend(a[1..], b);
    } else {
      assert a + b == b;
    }
  }

  /** Taking more of the newest messages never costs fewer tokens. */
  lemma NewestTokensMonotone(count: string -> nat, ms: seq<ChatMessage>, i: nat, j: nat)
    requires i <= j <= |ms|
    ensures Tokens(count, Newest(ms, i)) <= Tokens(count, Newest(ms, j))
  {
    assert Newest(ms, j) == ms[|ms| - j..|ms| - i] + Newest(ms, i);
    TokensAppend(count, ms[|ms| - j..|ms| - i], Newest(ms, i));
  }

  /** The greedy walk selects exactly a window in the declarative sense: the
      selected messages never exceed the budget, and the next older message
      would have exceeded it. */
  lemma {:induction false} WindowSizeIsWindow(count: string -> nat, ms: seq<ChatMessage>, maxTokens: int)
    ensures IsWindow(count, ms, maxTokens, WindowSize(count, ms, maxTokens))
  {
    if ms != [] {
      var init, last := ms[..|ms| - 1], ms[|ms| - 1];
      var t := count(Render(last));
      assert Newest(ms, 1) == [last];
      assert Tokens(count, [last]) == t;
      if t <= maxTokens {
        var w := WindowSize(count, init, maxTokens - t);
        WindowSizeIsWindow(count, init, maxTokens - t);
        assert Newest(ms, w + 1) == Newest(init, w) + [last];
        TokensAppend(count, Newest(init, w), [last]);
        if w < |init| {
          assert Newest(ms, w + 2) == Newest(init, w + 1) + [last];
          TokensAppend(count, Newest(init, w + 1), [last]);
        }
      }
    }
  }

  /** The declarative description determines the window: at most one length
      qualifies. */
  lemma WindowUnique(count: string -> nat, ms: seq<ChatMessage>, maxTokens: int, n1: nat, n2: nat)
    requires IsWindow(count, ms, maxTokens, n1) && IsWindow(count, ms, maxTokens, n2)
    ensures n1 == n2
  {
    if n1 < n2 {
      NewestTokensMonotone(count, ms, n1 + 1, n2);
    } else if n2 < n1 {
      NewestTokensMonotone(count, ms, n2 + 1, n1);
    }
  }

  /** `format_chat_history` (TokenManager.format_chat_history): walk the history
      from the newest message back, keep a running token total, stop at the
      first message that would push it over `maxTokens`, and prepend every
      accepted message so the result reads oldest first. */
  method FormatChatHistory(count: string -> nat, maxTokens: int, chatMessages: seq<ChatMessage>)
    returns (formattedHistory: string)
    ensures formattedHistory == FormattedHistory(count, chatMessages, maxTokens)
  {
    var tokenCount: int := 0;
    formattedHistory := "";
    var i := |chatMessages|;
    assert chatMessages[..i] == chatMessages;
    while i > 0
      invariant 0 <= i <= |chatMessages|
      invariant tokenCount == Tokens(count, chatMessages[i..])
      invariant formattedHistory == RenderAll(chatMessages[i..])
      invariant i == |chatMessages| || tokenCount <= maxTokens
      invariant WindowSize(count, chatMessages, maxTokens)
                == (|chatMessages| - i) + WindowSize(count, chatMessages[..i], maxTokens - tokenCount)
    {
      var message := chatMessages[i - 1];
      var messageText := Render(message);
      var messageTokens := count(messageText);
      assert chatMessages[..i][..i - 1] == chatMessages[..i - 1];
      if tokenCount + messageTokens > maxTokens {
        break;
      }
      assert chatMessages[i - 1..] == [message] + chatMessages[i..];
      tokenCount := tokenCount + messageTokens;
      formattedHistory := messageText + formattedHistory;
      i := i - 1;
    }
  }

  /** An empty history formats to the empty string. */
  lemma FormatEmptyHistory(count: string -> nat, maxTokens: int)
    ensures FormattedHistory(count, [], maxTokens) == ""
  {
  }

  /** A newest message that alone exceeds the budget is left out, and with it
      every older one: the result is empty, never a truncated message. */
  lemma FormatOversizedNewest(count: string -> nat, ms: seq<ChatMessage>, maxTokens: int)
    requires ms != [] && count(Render(ms[|ms| - 1])) > maxTokens
    ensures FormattedHistory(count, ms, maxTokens) == ""
  {
  }

  /** The result is the rendering of the window of newest messages: the
      selected messages are whole, in chronological order, and their token sum
      is within the budget; the message just before them did not fit. */
  lemma FormattedHistoryIsWindow(count: string -> nat, ms: seq<ChatMessage>, maxTokens: int)
    ensures exists n: nat ::
      IsWindow(count, ms, maxTokens, n) && FormattedHistory(count, ms, maxTokens) == RenderAll(Newest(ms, n))
  {
    WindowSizeIsWindow(count, ms, maxTokens);
  }

  /** When every message fits, the whole history is replayed in order, as in
      "user: Hi\nassistant: Hello!\n". */
  lemma FormatTwoMessages(count: string -> nat, a: ChatMessage, b: ChatMessage, maxTokens: int)
    requires count(Render(a)) + count(Render(b)) <= maxTokens
    ensures FormattedHistory(count, [a, b], maxTokens)
            == Render(a) + Render(b)
  {
    var ms := [a, b];
    assert ms[..1] == [a] && ms[..1][..0] == [];
    assert ms[1..] == [b] && [b][1..] == [];
    assert WindowSize(count, [a], maxTokens - count(Render(b))) == 1;
    assert Newest(ms, 2) == ms;
    assert RenderAll([b]) == Render(b) + RenderAll([]);
    assert RenderAll(ms) == Render(a) + RenderAll([b]);
  }
}
