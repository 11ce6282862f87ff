/**
 * The question catalog (the list loaded from questions.json) and what the bot does with a
 * question before anyone answers it: look it up by identifier, index its options the way a
 * Python list is indexed, lay out one button per option, and pick three questions for a quiz.
 */
module Catalog {
  import opened Wrappers
  import Payload

  /** One catalog entry: `id`, `question`, `options` and the index `answer` of the right option. */
  datatype Question = Question(id: string, prompt: string, options: seq<string>, answer: int)

  /** An answer button: the option text shown and the callback payload it sends back. */
  datatype Button = Button(caption: string, payload: string)

  /** One quiz message: the question text and its keyboard. */
  datatype QuizMessage = QuizMessage(text: string, keyboard: seq<Button>)

  datatype QuizError = InsufficientCatalog

  /** `random.sample(questions, 3)`: the number of questions in one quiz. */
  const QuizSize: nat := 3

  /** Nothing in the bot checks this; it is what a sensible catalog entry satisfies. */
  predicate WellFormed(q: Question)
  {
    0 <= q.answer < |q.options|
  }

  /**
   * `next((q for q in questions if q["id"] == id), None)`: the first entry whose
   * identifier is `id`, or nothing.
   */
  function Lookup(catalog: seq<Question>, id: string): (r: Option<Question>)
    ensures r.Some? ==> r.value in catalog && r.value.id == id
    ensures r.None? <==> forall k :: 0 <= k < |catalog| ==> catalog[k].id != id
  {
    if catalog == [] then None
    else if catalog[0].id == id then Some(catalog[0])
    else Lookup(catalog[1..], id)
  }

  /** When several entries share an identifier, the earliest one wins. */
  lemma {:induction false} LookupFirst(catalog: seq<Question>, k: nat)
    requires k < |catalog|
    requires forall j :: 0 <= j < k ==> catalog[j].id != catalog[k].id
    ensures Lookup(catalog, catalog[k].id) == Some(catalog[k])
  {
    if k > 0 {
      assert catalog[0].id != catalog[k].id;
      LookupFirst(catalog[1..], k - 1);
    }
  }

  /**
   * Python's `xs[k]` on a list: a negative `k` counts from the end, and an index outside
   * `-|xs| .. |xs| - 1` raises IndexError, here `None`.
   */
  function PyIndex<T>(xs: seq<T>, k: int): Option<T>
  {
    if 0 <= k < |xs| then Some(xs[k])
    else if -|xs| <= k < 0 then Some(xs[|xs| + k])
    else None
  }

  /** The inline keyboard of a question: button `i` shows option `i` and sends `"<id>:<i>"`. */
  function Keyboard(q: Question): seq<Button>
  {
    seq(|q.options|, i requires 0 <= i < |q.options| => Button(q.options[i], Payload.Encode(q.id, i)))
  }

  /**
   * A question with k options gets exactly k buttons, in option order, and each button's
   * payload decodes back to the question's identifier and the button's own index.
   */
  lemma KeyboardDecodes(q: Question)
    requires Payload.Separator !in q.id
    ensures |Keyboard(q)| == |q.options|
    ensures forall i :: 0 <= i < |q.options| ==>
      Keyboard(q)[i].caption == q.options[i] &&
      Payload.Decode(Keyboard(q)[i].payload) == Success((q.id, Payload.NatToString(i))) &&
      Payload.ParseInt(Payload.NatToString(i)) == Some(i)
  {
    forall i | 0 <= i < |q.options|
      ensures Payload.Decode(Keyboard(q)[i].payload) == Success((q.id, Payload.NatToString(i)))
      ensures Payload.ParseInt(Payload.NatToString(i)) == Some(i)
    {
      Payload.DecodeEncode(q.id, i);
      Payload.ParseIntOfNatToString(i);
    }
  }

  /** No two buttons of one question send the same payload. */
  lemma KeyboardPayloadsDistinct(q: Question)
    ensures forall i, j :: 0 <= i < j < |q.options| ==> Keyboard(q)[i].payload != Keyboard(q)[j].payload
  {
    forall i, j | 0 <= i < j < |q.options|
      ensures Keyboard(q)[i].payload != Keyboard(q)[j].payload
    {
      if Keyboard(q)[i].payload == Keyboard(q)[j].payload {
        Payload.EncodeInjective(q.id, i, j);
      }
    }
  }

  /** The message sent for one selected question. */
  function Message(q: Question): (m: QuizMessage)
    ensures m.text == q.prompt && |m.keyboard| == |q.options|
    ensures forall i :: 0 <= i < |m.keyboard| ==>
      m.keyboard[i].caption == q.options[i] && m.keyboard[i].payload == Payload.Encode(q.id, i)
  {
    QuizMessage(q.prompt, Keyboard(q))
  }

  /** Position `p` is a catalog position not yet drawn. */
  predicate Unpicked(p: nat, size: nat, drawn: seq<nat>)
  {
    p < size && p !in drawn
  }

  /**
   * `random.sample(questions, 3)`: three pairwise-distinct positions of the catalog, chosen
   * by the environment; with fewer than three questions `random.sample` raises ValueError.
   */
  method Sample(catalog: seq<Question>) returns (r: Result<seq<nat>, QuizError>)
    ensures r.Failure? <==> |catalog| < QuizSize
    ensures r.Success? ==> |r.value| == QuizSize
    ensures r.Success? ==> forall t :: 0 <= t < |r.value| ==> r.value[t] < |catalog|
    ensures r.Success? ==> forall s, t :: 0 <= s < t < |r.value| ==> r.value[s] != r.value[t]
  {
    if |catalog| < QuizSize {
      return Failure(InsufficientCatalog);
    }
    assert Unpicked(0, |catalog|, []);
    var a: nat :| Unpicked(a, |catalog|, []);
    assert Unpicked(a, |catalog|, []);
    assert Unpicked(if a == 0 then 1 else 0, |catalog|, [a]);
    var b: nat :| Unpicked(b, |catalog|, [a]);
    assert Unpicked(b, |catalog|, [a]);
    assert Unpicked(if 0 != a && 0 != b then 0 else if 1 != a && 1 != b then 1 else 2, |catalog|, [a, b]);
    var c: nat :| Unpicked(c, |catalog|, [a, b]);
    assert Unpicked(c, |catalog|, [a, b]);
    r := Success([a, b, c]);
  }

  /**
   * `send_quiz_to_user`: one message per sampled question, in sample order, each with the
   * question's text and its keyboard; `picks` names the sampled catalog positions.
   */
  method SendQuiz(catalog: seq<Question>) returns (r: Result<seq<QuizMessage>, QuizError>, ghost picks: seq<nat>)
    ensures r.Failure? <==> |catalog| < QuizSize
    ensures r.Success? ==> |r.value| == |picks| == QuizSize
    ensures r.Success? ==> forall s, t :: 0 <= s < t < |picks| ==> picks[s] != picks[t]
    ensures r.Success? ==> forall t :: 0 <= t < |picks| ==> picks[t] < |catalog| && r.value[t] == Message(catalog[picks[t]])
  {
    var sample := Sample(catalog);
    if sample.Failure? {
      return Failure(sample.error), [];
    }
    var chosen := sample.value;
    picks := chosen;
    var messages: seq<QuizMessage> := [];
    for t := 0 to |chosen|
      invariant |messages| == t
      invariant forall s :: 0 <= s < t ==> messages[s] == Message(catalog[chosen[s]])
    {
      messages := messages + [Message(catalog[chosen[t]])];
    }
    r := Success(messages);
  }
}
