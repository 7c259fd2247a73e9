/** The conversation pane: one bubble per message in the given order, own
    messages set apart, and a typing indicator below. */
module MessageList {
  import opened ChatTypes
  import opened JsString

  /** What a rendered message shows. `sender` is present only for messages
      written by someone else; `own` selects the right-aligned style. */
  datatype Bubble = Bubble(key: string, own: bool, sender: Option<string>, text: string, timestamp: int)

  datatype View = NoMessagesYet | Bubbles(items: seq<Bubble>)

  predicate IsOwn(m: Message, me: string) {
    m.username == me
  }

  function RenderMessage(m: Message, me: string): (b: Bubble)
    ensures b.key == m.id && b.text == m.text && b.timestamp == m.timestamp
    ensures b.own <==> m.username == me
    ensures b.sender.Some? <==> !b.own
    ensures b.sender.Some? ==> b.sender.value == m.username
  {
    if IsOwn(m, me) then Bubble(m.id, true, None, m.text, m.timestamp)
    else Bubble(m.id, false, Some(m.username), m.text, m.timestamp)
  }

  function RenderMessages(ms: seq<Message>, me: string): (v: View)
    ensures v.NoMessagesYet? <==> ms == []
    ensures v.Bubbles? ==> |v.items| == |ms|
    ensures v.Bubbles? ==> forall i :: 0 <= i < |ms| ==> v.items[i] == RenderMessage(ms[i], me)
  {
    if ms == [] then NoMessagesYet
    else Bubbles(seq(|ms|, i requires 0 <= i < |ms| => RenderMessage(ms[i], me)))
  }

  /** The name line of a bubble, when shown, never names the viewer. */
  lemma {:induction false} SenderNeverViewer(ms: seq<Message>, me: string, i: int)
    requires ms != [] && 0 <= i < |ms|
    ensures var b := RenderMessages(ms, me).items[i];
      b.sender.Some? ==> b.sender.value != me
  {
  }

  /** The indicator text, or `None` when nobody else is typing. */
  function TypingLabel(typing: seq<string>): (text: Option<string>)
    ensures text.None? <==> typing == []
    ensures |typing| == 1 ==> text == Some(typing[0] + " is typing...")
    ensures |typing| > 1 ==> text == Some(Join(typing, ", ") + " are typing...")
  {
    if |typing| == 0 then None
    else if |typing| == 1 then Some(typing[0] + " is typing...")
    else Some(Join(typing, ", ") + " are typing...")
  }

  /** Both label forms begin with the first typing name; with one name the
      join is that name alone, so only the verb differs. */
  lemma {:induction false} LabelStartsWithFirstName(typing: seq<string>)
    requires typing != []
    ensures var l := TypingLabel(typing).value;
      |typing[0]| <= |l| && l[..|typing[0]|] == typing[0]
    ensures TypingLabel(typing).value
         == Join(typing, ", ") + (if |typing| == 1 then " is typing..." else " are typing...")
  {
    var l := TypingLabel(typing).value;
    var j := Join(typing, ", ");
    JoinStartsWithFirst(typing, ", ");
    assert |typing[0]| <= |j| && j[..|typing[0]|] == typing[0];
    if |typing| == 1 {
      assert j == typing[0];
    }
    assert l[..|j|] == j;
    assert l[..|typing[0]|] == j[..|typing[0]|];
  }

  /** With two names the label reads "a, b are typing...". */
  lemma TwoTypers(a: string, b: string)
    ensures TypingLabel([a, b]) == Some(a + ", " + b + " are typing...")
  {
    assert [a, b][1..] == [b];
    assert Join([b], ", ") == b;
    assert Join([a, b], ", ") == a + ", " + b;
  }

  /** Every typing name appears in the label, right after the join of the
      names before it and a comma separator. */
  lemma {:induction false} LabelNamesEveryTyper(typing: seq<string>, i: int)
    requires 0 <= i < |typing|
    ensures var l := TypingLabel(typing).value;
      var p := if i == 0 then 0 else |Join(typing[..i], ", ")| + 2;
      p + |typing[i]| <= |l| && l[p..p + |typing[i]|] == typing[i]
  {
    var l := TypingLabel(typing).value;
    LabelStartsWithFirstName(typing);
    var j := Join(typing, ", ");
    assert l[..|j|] == j;
    if i > 0 {
      JoinSplits(typing, ", ", i);
      JoinStartsWithFirst(typing[i..], ", ");
      var a, b := Join(typing[..i], ", "), Join(typing[i..], ", ");
      assert j == a + ", " + b;
      assert typing[i..][0] == typing[i];
      assert j[|a| + 2..|a| + 2 + |typing[i]|] == b[..|typing[i]|];
    } else {
      JoinStartsWithFirst(typing, ", ");
    }
  }
}
