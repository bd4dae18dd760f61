/**
 * The preview iframe's message handler `receiveMessage` and its init script,
 * stated on values: the state of the iframe window, the effect of one
 * `message` event on it, the invariant every reachable state keeps, and the
 * properties the handler promises.
 */
module PreviewProtocol {
  import opened Optional
  import opened HeadNodes
  import Highlight

  /** The application tree of `data.frontendDefinition`; the handler only passes it on, so it stays opaque. */
  datatype Definition = Definition(tree: string)

  /** The fields the handler reads from the parsed payload; `None` is a field the payload lacks. */
  datatype PreviewMessage = PreviewMessage(
    frontendDefinition: Option<Definition>,
    styles: Option<string>,
    selectedComponentType: Option<string>,
    selectedComponentId: Option<string>)

  /**
   * What `JSON.parse` returned, as far as the handler can tell: `null`, whose
   * field reads throw, or any other value, whose fields read as a message
   * (every field of a number, boolean or string reads as `undefined`).
   */
  datatype Parsed = JsonNull | JsonValue(message: PreviewMessage)

  /** `event.data`: `undefined`/`null`, or the text the builder posted. */
  datatype EventData = NoData | Data(text: string)

  /** What the iframe did that is visible outside its `document.head`, in order. */
  datatype Effect =
    | ClickGuardInstalled                         // capture-phase `click` listener on the document
    | MessageListenerAdded                        // `window.addEventListener('message', receiveMessage)`
    | ReadyDispatched                             // `window.dispatchEvent(new Event('bb-ready'))`
    | Published(definition: Option<Definition>)   // write of `window["##BUDIBASE_FRONTEND_DEFINITION##"]`
    | LoadBudibase(sees: Option<Definition>)      // call of `loadBudibase`, with the definition slot it finds

  /**
   * The iframe window. The head's first `templateNodes` node identities are
   * the nodes of the HTML template (font links, base style, scripts); every
   * node the handler creates gets the next identity `nextNode`.
   */
  datatype WindowState = WindowState(
    templateNodes: nat,
    head: seq<NodeId>,
    text: map<NodeId, string>,
    styles: Option<NodeId>,
    selectedComponentStyle: Option<NodeId>,
    definitionSlot: Option<Definition>,
    effects: seq<Effect>,
    nextNode: NodeId)

  /** The effects of the init script, in the order it runs them. */
  const InitEffects: seq<Effect> := [ClickGuardInstalled, MessageListenerAdded, ReadyDispatched]

  /** `!event.data`: no data, or the empty string. */
  predicate Falsy(d: EventData) {
    d.NoData? || d.text == ""
  }

  /** JavaScript's string conversion of a field: a missing field becomes the text `undefined`. */
  function ToText(field: Option<string>): string {
    if field.Some? then field.value else "undefined"
  }

  /** The text of the selection-highlight `<style>` for a message. */
  function SelectionCss(m: PreviewMessage): string {
    Highlight.Rule(ToText(m.selectedComponentType), ToText(m.selectedComponentId))
  }

  /** Node identities `0 .. k-1`, the template's head in document order. */
  function Range(k: nat): (r: seq<NodeId>)
    ensures |r| == k
    ensures forall i :: 0 <= i < k ==> r[i] == i
  {
    if k == 0 then [] else Range(k - 1) + [k - 1]
  }

  /** Text of each template node. */
  function TemplateText(template: seq<string>): map<NodeId, string> {
    map i: nat | i < |template| :: template[i]
  }

  /** The window once the template is parsed and the init script has run. */
  function Initial(template: seq<string>): WindowState {
    WindowState(|template|, Range(|template|), TemplateText(template), None, None, None, InitEffects, |template|)
  }

  /** A reference that is set points at a node the handler created. */
  predicate Created(s: WindowState, r: Option<NodeId>) {
    r.Some? ==> s.templateNodes <= r.value < s.nextNode
  }

  /** The reference fields that are set. */
  function Tracked(s: WindowState): set<NodeId> {
    (if s.styles.Some? then {s.styles.value} else {})
    + (if s.selectedComponentStyle.Some? then {s.selectedComponentStyle.value} else {})
  }

  /**
   * The invariant of every reachable window: the head is a list of distinct
   * nodes with text; every created node still in the head is one of the two
   * tracked references; the init effects came first, exactly once, and later
   * only publications and runtime calls follow, each call right after the
   * publication of the definition it sees.
   */
  ghost predicate Valid(s: WindowState) {
    && Distinct(s.head)
    && s.templateNodes <= s.nextNode
    && (forall n :: n in s.head ==> n < s.nextNode && n in s.text)
    && (forall n :: n in s.head && s.templateNodes <= n ==> n in Tracked(s))
    && Created(s, s.styles)
    && Created(s, s.selectedComponentStyle)
    && |s.effects| >= 3
    && s.effects[..3] == InitEffects
    && (forall i :: 3 <= i < |s.effects| ==> s.effects[i].Published? || s.effects[i].LoadBudibase?)
    && (forall i :: 0 <= i < |s.effects| && s.effects[i].LoadBudibase? ==>
          0 < i && s.effects[i - 1] == Published(s.effects[i].sees))
  }

  /** The head's text contents in document order, and the published definition. */
  function Observed(s: WindowState): (seq<string>, Option<Definition>)
    requires forall n :: n in s.head ==> n in s.text
  {
    (Texts(s.head, s.text), s.definitionSlot)
  }

  /** `if (ref) document.head.removeChild(ref)`, inside its `try`. */
  function RemoveRef(h: seq<NodeId>, r: Option<NodeId>): seq<NodeId> {
    if r.Some? then Without(h, r.value) else h
  }

  /** The head once both previously injected nodes are removed, `styles` first. */
  function RemoveTracked(s: WindowState): seq<NodeId> {
    RemoveRef(RemoveRef(s.head, s.styles), s.selectedComponentStyle)
  }

  /**
   * The updates of an applied message, given the two style texts: old nodes
   * removed, a fresh selection `<style>` appended with `selection`, a fresh
   * general `<style>` appended with `general`, the definition `d` published,
   * then `loadBudibase` called if `window.loadBudibase` is defined.
   */
  function Inject(s: WindowState, selection: string, general: string, d: Option<Definition>, runtimeLoaded: bool): WindowState {
    var sel, sty := s.nextNode, s.nextNode + 1;
    s.(head := RemoveTracked(s) + [sel, sty],
       text := s.text[sel := selection][sty := general],
       selectedComponentStyle := Some(sel),
       styles := Some(sty),
       definitionSlot := d,
       effects := s.effects + [Published(d)] + (if runtimeLoaded then [LoadBudibase(d)] else []),
       nextNode := s.nextNode + 2)
  }

  /** A parsed message applied: the selection rule, then `data.styles`, then the definition. */
  function Apply(s: WindowState, m: PreviewMessage, runtimeLoaded: bool): WindowState {
    Inject(s, SelectionCss(m), ToText(m.styles), m.frontendDefinition, runtimeLoaded)
  }

  /**
   * A payload that parsed to `null`: the removals run and the new, still empty,
   * selection `<style>` is appended; then reading `data.selectedComponentType`
   * throws and the handler stops.
   */
  function AbortedAtSelection(s: WindowState): WindowState {
    var sel := s.nextNode;
    s.(head := RemoveTracked(s) + [sel],
       text := s.text[sel := ""],
       selectedComponentStyle := Some(sel),
       nextNode := s.nextNode + 1)
  }

  /**
   * One `message` event. `parse` stands for `JSON.parse` (`None` where it
   * throws); `runtimeLoaded` for whether `window.loadBudibase` is defined.
   */
  function Receive(s: WindowState, data: EventData, parse: string -> Option<Parsed>, runtimeLoaded: bool): WindowState {
    if Falsy(data) then s
    else match parse(data.text)
      case None => s
      case Some(JsonNull) => AbortedAtSelection(s)
      case Some(JsonValue(m)) => Apply(s, m, runtimeLoaded)
  }

  // ---------------------------------------------------------------------------
  // Initialisation

  /** The first `k` template nodes carry the template's first `k` texts. */
  lemma {:induction false} TemplateTexts(template: seq<string>, k: nat)
    requires k <= |template|
    ensures forall n :: n in Range(k) ==> n in TemplateText(template)
    ensures Texts(Range(k), TemplateText(template)) == template[..k]
  {
    if k > 0 {
      var t := TemplateText(template);
      TemplateTexts(template, k - 1);
      TextsAppend(Range(k - 1), [k - 1], t);
      assert template[..k] == template[..k - 1] + [template[k - 1]];
    }
  }

  /** The window after the init script satisfies the invariant; its head is the template, in order, with nothing injected. */
  lemma InitialValid(template: seq<string>)
    ensures Valid(Initial(template))
    ensures Observed(Initial(template)) == (template, None)
    ensures Initial(template).styles == None && Initial(template).selectedComponentStyle == None
  {
    var s := Initial(template);
    forall i, j | 0 <= i < j < |s.head| ensures s.head[i] != s.head[j] { }
    TemplateTexts(template, |template|);
    assert template[..|template|] == template;
  }

  /**
   * `bb-ready` is dispatched exactly once, after the click guard and the
   * message listener are installed and before any effect of a message; the
   * listener is added exactly once.
   */
  lemma ReadyExactlyOnce(s: WindowState)
    requires Valid(s)
    ensures s.effects[0] == ClickGuardInstalled && s.effects[1] == MessageListenerAdded && s.effects[2] == ReadyDispatched
    ensures forall i :: 0 <= i < |s.effects| && s.effects[i] == ReadyDispatched ==> i == 2
    ensures forall i :: 0 <= i < |s.effects| && s.effects[i] == MessageListenerAdded ==> i == 1
  {
  }

  // ---------------------------------------------------------------------------
  // Removal of the tracked nodes

  /**
   * Removing the two tracked references from a head whose every created node
   * is one of them leaves exactly the template nodes, in their order; a
   * reference that is unset or no longer attached is passed over.
   */
  lemma {:induction false} RemoveRefsLeaveTemplate(h: seq<NodeId>, k: nat, a: Option<NodeId>, b: Option<NodeId>)
    requires Distinct(h)
    requires a.Some? ==> k <= a.value
    requires b.Some? ==> k <= b.value
    requires forall x :: x in h && k <= x ==> Some(x) == a || Some(x) == b
    ensures RemoveRef(RemoveRef(h, a), b) == Below(h, k)
    decreases |h|
  {
    if h != [] {
      var t := h[1..];
      assert h == [h[0]] + t;
      assert Distinct(t);
      assert forall x :: x in t ==> x in h && x != h[0];
      RemoveRefsLeaveTemplate(t, k, a, b);
      if h[0] < k {
        assert RemoveRef(h, a) == [h[0]] + RemoveRef(t, a);
        assert RemoveRef(RemoveRef(h, a), b) == [h[0]] + RemoveRef(RemoveRef(t, a), b);
      } else if Some(h[0]) == a {
        assert RemoveRef(h, a) == t == RemoveRef(t, a);
      } else {
        assert Some(h[0]) == b;
        assert RemoveRef(h, a) == [h[0]] + RemoveRef(t, a);
        assert h[0] !in RemoveRef(t, a);
        assert RemoveRef(RemoveRef(h, a), b) == RemoveRef(t, a) == RemoveRef(RemoveRef(t, a), b);
      }
    }
  }

  /** In a reachable window, removing the tracked nodes leaves the template nodes of the head. */
  lemma RemoveTrackedIsTemplate(s: WindowState)
    requires Valid(s)
    ensures RemoveTracked(s) == Below(s.head, s.templateNodes)
  {
    RemoveRefsLeaveTemplate(s.head, s.templateNodes, s.styles, s.selectedComponentStyle);
  }

  // ---------------------------------------------------------------------------
  // An applied message, for any two style texts

  /**
   * After an applied message the head is the old template nodes, in order,
   * followed by the new selection node and then the new general node; the
   * references point at those two fresh nodes, nothing else the handler
   * created is left, and the template nodes keep their text.
   */
  lemma InjectedHead(s: WindowState, x: string, y: string, d: Option<Definition>, runtimeLoaded: bool)
    requires Valid(s)
    ensures var s' := Inject(s, x, y, d, runtimeLoaded);
      && s'.head == Below(s.head, s.templateNodes) + [s'.selectedComponentStyle.value, s'.styles.value]
      && s'.selectedComponentStyle.value !in s.head && s'.styles.value !in s.head
      && s'.selectedComponentStyle.value != s'.styles.value
      && Below(s'.head, s.templateNodes) == Below(s.head, s.templateNodes)
      && Above(s'.head, s.templateNodes) == [s'.selectedComponentStyle.value, s'.styles.value]
      && (forall n :: n in Below(s.head, s.templateNodes) ==> n in s'.text && s'.text[n] == s.text[n])
  {
    var s' := Inject(s, x, y, d, runtimeLoaded);
    var k := s.templateNodes;
    var kept := Below(s.head, k);
    var added := [s.nextNode, s.nextNode + 1];
    RemoveTrackedIsTemplate(s);
    assert s'.head == kept + added;
    SplitAtTemplate(kept, added, k);
    forall n | n in kept
      ensures n in s'.text && s'.text[n] == s.text[n]
    {
      assert n in s.head && n < s.nextNode;
    }
  }

  /** An applied message keeps the invariant. */
  lemma InjectValid(s: WindowState, x: string, y: string, d: Option<Definition>, runtimeLoaded: bool)
    requires Valid(s)
    ensures Valid(Inject(s, x, y, d, runtimeLoaded))
  {
    var s' := Inject(s, x, y, d, runtimeLoaded);
    RemoveTrackedIsTemplate(s);
    var kept := Below(s.head, s.templateNodes);
    assert forall n :: n in kept ==> n in s.head && n < s.nextNode;
    assert s'.head == kept + [s.nextNode, s.nextNode + 1];
    DistinctAppendFresh(kept, [s.nextNode, s.nextNode + 1], s.nextNode);
    var extra := if runtimeLoaded then [LoadBudibase(d)] else [];
    assert s'.effects == s.effects + [Published(d)] + extra;
    assert s'.effects[..3] == s.effects[..3];
    forall i | 0 <= i < |s'.effects| && s'.effects[i].LoadBudibase?
      ensures 0 < i && s'.effects[i - 1] == Published(s'.effects[i].sees)
    {
      if i < |s.effects| {
        assert s'.effects[i] == s.effects[i] && s'.effects[i - 1] == s.effects[i - 1];
      }
    }
  }

  /**
   * The head's text after an applied message: the template nodes' texts
   * unchanged and in order, then the selection text, then the general text.
   */
  lemma InjectedTexts(s: WindowState, x: string, y: string, d: Option<Definition>, runtimeLoaded: bool)
    requires Valid(s)
    ensures var s' := Inject(s, x, y, d, runtimeLoaded);
      && (forall n :: n in s'.head ==> n in s'.text)
      && Texts(s'.head, s'.text) == Texts(Below(s.head, s.templateNodes), s.text) + [x, y]
  {
    RemoveTrackedIsTemplate(s);
    var kept := Below(s.head, s.templateNodes);
    var head := kept + [s.nextNode, s.nextNode + 1];
    var text := s.text[s.nextNode := x][s.nextNode + 1 := y];
    assert forall n :: n in kept ==> n in s.text && n != s.nextNode && n != s.nextNode + 1;
    TextsAppendTwo(kept, s.text, s.nextNode, x, s.nextNode + 1, y);
    assert Inject(s, x, y, d, runtimeLoaded).head == head;
    assert Inject(s, x, y, d, runtimeLoaded).text == text;
  }

  // ---------------------------------------------------------------------------
  // The payload that parses to `null`

  /** A payload that parsed to `null` still leaves a window that satisfies the invariant. */
  lemma AbortedValid(s: WindowState)
    requires Valid(s)
    ensures Valid(AbortedAtSelection(s))
  {
    var s' := AbortedAtSelection(s);
    RemoveTrackedIsTemplate(s);
    var kept := Below(s.head, s.templateNodes);
    assert forall n :: n in kept ==> n in s.head && n < s.nextNode;
    assert s'.head == kept + [s.nextNode];
    DistinctAppendFresh(kept, [s.nextNode], s.nextNode);
  }

  /**
   * A payload that parses to `null` removes both injected nodes and leaves a
   * new, empty selection node; `styles` still names the removed general node
   * and nothing is published.
   */
  lemma NullPayloadDropsStyles(s: WindowState, data: EventData, parse: string -> Option<Parsed>, runtimeLoaded: bool)
    requires Valid(s)
    requires !Falsy(data) && parse(data.text) == Some(JsonNull)
    ensures var s' := Receive(s, data, parse, runtimeLoaded);
      && s'.head == Below(s.head, s.templateNodes) + [s'.selectedComponentStyle.value]
      && s'.text[s'.selectedComponentStyle.value] == ""
      && s'.styles == s.styles
      && (s.styles.Some? ==> s.styles.value !in s'.head)
      && s'.definitionSlot == s.definitionSlot
      && s'.effects == s.effects
  {
    RemoveTrackedIsTemplate(s);
  }

  // ---------------------------------------------------------------------------
  // One message event

  /** Every `message` event keeps the invariant. */
  lemma ReceiveValid(s: WindowState, data: EventData, parse: string -> Option<Parsed>, runtimeLoaded: bool)
    requires Valid(s)
    ensures Valid(Receive(s, data, parse, runtimeLoaded))
  {
    if !Falsy(data) {
      match parse(data.text)
      case None =>
      case Some(JsonNull) => AbortedValid(s);
      case Some(JsonValue(m)) => InjectValid(s, SelectionCss(m), ToText(m.styles), m.frontendDefinition, runtimeLoaded);
    }
  }

  /**
   * The handler leaves the window exactly as it was precisely when the payload
   * is falsy or fails to parse: head, both references, the definition slot and
   * the runtime calls stay; any payload that parses changes the window.
   */
  lemma UnchangedIffRejected(s: WindowState, data: EventData, parse: string -> Option<Parsed>, runtimeLoaded: bool)
    ensures Receive(s, data, parse, runtimeLoaded) == s <==> Falsy(data) || parse(data.text) == None
  {
  }

  /**
   * Every `message` event leaves the template nodes of the head alone: the same
   * nodes in the same order with the same text.
   */
  lemma TemplateUntouched(s: WindowState, data: EventData, parse: string -> Option<Parsed>, runtimeLoaded: bool)
    requires Valid(s)
    ensures var s' := Receive(s, data, parse, runtimeLoaded);
      && s'.templateNodes == s.templateNodes
      && Below(s'.head, s.templateNodes) == Below(s.head, s.templateNodes)
      && (forall n :: n in Below(s.head, s.templateNodes) ==> n in s'.text && s'.text[n] == s.text[n])
  {
    if !Falsy(data) {
      match parse(data.text)
      case None =>
      case Some(JsonNull) =>
        var k := s.templateNodes;
        var kept := Below(s.head, k);
        RemoveTrackedIsTemplate(s);
        assert AbortedAtSelection(s).head == kept + [s.nextNode];
        SplitAtTemplate(kept, [s.nextNode], k);
      case Some(JsonValue(m)) =>
        InjectedHead(s, SelectionCss(m), ToText(m.styles), m.frontendDefinition, runtimeLoaded);
    }
  }

  /** There is never more than one injected node of each kind in the head: the created nodes in it are the tracked ones. */
  lemma AtMostOneOfEachKind(s: WindowState)
    requires Valid(s)
    ensures forall n :: n in Above(s.head, s.templateNodes) ==> Some(n) == s.styles || Some(n) == s.selectedComponentStyle
    ensures |Above(s.head, s.templateNodes)| <= 2
  {
    DistinctWithin(Above(s.head, s.templateNodes), Tracked(s));
  }

  /**
   * After an applied message the head is the template nodes, in order, then
   * the selection node holding exactly the selection rule, then the general
   * node holding exactly `data.styles` (`undefined` when missing).
   */
  lemma AppliedTexts(s: WindowState, m: PreviewMessage, runtimeLoaded: bool)
    requires Valid(s)
    ensures Valid(Apply(s, m, runtimeLoaded))
    ensures var s' := Apply(s, m, runtimeLoaded);
      && s'.head == Below(s.head, s.templateNodes) + [s'.selectedComponentStyle.value, s'.styles.value]
      && Texts(s'.head, s'.text) == Texts(Below(s.head, s.templateNodes), s.text) + [SelectionCss(m), ToText(m.styles)]
  {
    InjectedHead(s, SelectionCss(m), ToText(m.styles), m.frontendDefinition, runtimeLoaded);
    InjectedTexts(s, SelectionCss(m), ToText(m.styles), m.frontendDefinition, runtimeLoaded);
    InjectValid(s, SelectionCss(m), ToText(m.styles), m.frontendDefinition, runtimeLoaded);
  }

  /**
   * A message without `styles` still replaces the general `<style>`: the last
   * node of the head is the new general node, and it reads `undefined`.
   */
  lemma StylesWithoutStyles(s: WindowState, m: PreviewMessage, runtimeLoaded: bool)
    requires Valid(s) && m.styles.None?
    ensures var s' := Apply(s, m, runtimeLoaded);
      && (forall n :: n in s'.head ==> n in s'.text)
      && |s'.head| > 0
      && s'.head[|s'.head| - 1] == s'.styles.value
      && Texts(s'.head, s'.text)[|s'.head| - 1] == "undefined"
  {
    AppliedTexts(s, m, runtimeLoaded);
  }

  /**
   * The definition is published before `loadBudibase` runs, and the runtime is
   * called, once and after the publication, exactly when it is loaded; a
   * payload that does not parse to a message publishes and calls nothing.
   */
  lemma PublishThenInvoke(s: WindowState, data: EventData, parse: string -> Option<Parsed>, runtimeLoaded: bool)
    ensures var s' := Receive(s, data, parse, runtimeLoaded);
      && |s'.effects| >= |s.effects|
      && s'.effects[..|s.effects|] == s.effects
      && var added := s'.effects[|s.effects|..];
      if !Falsy(data) && parse(data.text).Some? && parse(data.text).value.JsonValue? then
        var d := parse(data.text).value.message.frontendDefinition;
        && s'.definitionSlot == d
        && |added| == (if runtimeLoaded then 2 else 1)
        && added[0] == Published(d)
        && (runtimeLoaded <==> LoadBudibase(d) in added)
      else
        added == [] && s'.definitionSlot == s.definitionSlot
  {
    var s' := Receive(s, data, parse, runtimeLoaded);
    assert s'.effects[..|s.effects|] == s.effects;
    if !Falsy(data) && parse(data.text).Some? && parse(data.text).value.JsonValue? {
      var d := parse(data.text).value.message.frontendDefinition;
      var added := s'.effects[|s.effects|..];
      if runtimeLoaded {
        assert added == [Published(d), LoadBudibase(d)];
      } else {
        assert added == [Published(d)];
      }
    }
  }

  // ---------------------------------------------------------------------------
  // Properties across messages

  /**
   * Last message wins: whatever event came before (a falsy or unparsable
   * payload, `null`, or another message), applying `m` leaves the same head
   * texts, in the same order, and the same published definition as applying
   * `m` to the earlier window directly.
   */
  lemma LastMessageWins(s: WindowState, data: EventData, parse: string -> Option<Parsed>, r1: bool, m: PreviewMessage, r2: bool)
    requires Valid(s)
    ensures Valid(Receive(s, data, parse, r1))
    ensures Valid(Apply(s, m, r2))
    ensures Valid(Apply(Receive(s, data, parse, r1), m, r2))
    ensures Observed(Apply(Receive(s, data, parse, r1), m, r2)) == Observed(Apply(s, m, r2))
  {
    var t := Receive(s, data, parse, r1);
    var x, y, d := SelectionCss(m), ToText(m.styles), m.frontendDefinition;
    ReceiveValid(s, data, parse, r1);
    TemplateUntouched(s, data, parse, r1);
    InjectedTexts(s, x, y, d, r2);
    InjectedTexts(t, x, y, d, r2);
    InjectValid(s, x, y, d, r2);
    InjectValid(t, x, y, d, r2);
    TextsAgree(Below(s.head, s.templateNodes), s.text, t.text);
  }

  /** Applying the same message twice is observably the same as applying it once: the injected nodes are replaced, not accumulated. */
  lemma ApplyIdempotent(s: WindowState, m: PreviewMessage, r1: bool, r2: bool)
    requires Valid(s)
    ensures Valid(Apply(s, m, r2))
    ensures Valid(Apply(Apply(s, m, r1), m, r2))
    ensures Observed(Apply(Apply(s, m, r1), m, r2)) == Observed(Apply(s, m, r2))
    ensures |Apply(Apply(s, m, r1), m, r2).head| == |Apply(s, m, r2).head|
  {
    var x, y, d := SelectionCss(m), ToText(m.styles), m.frontendDefinition;
    var t := Inject(s, x, y, d, r1);
    InjectedHead(s, x, y, d, r1);
    InjectValid(s, x, y, d, r1);
    InjectedHead(s, x, y, d, r2);
    InjectedHead(t, x, y, d, r2);
    InjectValid(s, x, y, d, r2);
    InjectValid(t, x, y, d, r2);
    InjectedTexts(s, x, y, d, r2);
    InjectedTexts(t, x, y, d, r2);
    TextsAgree(Below(s.head, s.templateNodes), s.text, t.text);
  }

  /** A payload that fails to parse after a message leaves the window the message produced. */
  lemma BadPayloadKeepsLastGood(s: WindowState, m: PreviewMessage, runtimeLoaded: bool, data: EventData, parse: string -> Option<Parsed>, r2: bool)
    requires !Falsy(data) && parse(data.text) == None
    ensures Receive(Apply(s, m, runtimeLoaded), data, parse, r2) == Apply(s, m, runtimeLoaded)
  {
  }

  /**
   * The first message after the init script, when both references are still
   * unset: nothing is removed and the head is the template followed by the
   * selection rule and the general styles.
   */
  lemma FirstMessage(template: seq<string>, m: PreviewMessage, runtimeLoaded: bool)
    ensures Valid(Apply(Initial(template), m, runtimeLoaded))
    ensures Observed(Apply(Initial(template), m, runtimeLoaded)) ==
      (template + [SelectionCss(m), ToText(m.styles)], m.frontendDefinition)
  {
    var s := Initial(template);
    InitialValid(template);
    InjectValid(s, SelectionCss(m), ToText(m.styles), m.frontendDefinition, runtimeLoaded);
    InjectedTexts(s, SelectionCss(m), ToText(m.styles), m.frontendDefinition, runtimeLoaded);
    BelowOfTemplate(s.head, s.templateNodes);
  }

  // ---------------------------------------------------------------------------
  // The selection rule of a message

  /** Missing selection fields are not special-cased: both tokens read `undefined`. */
  lemma SelectionWithoutSelection(m: PreviewMessage)
    requires m.selectedComponentType.None? && m.selectedComponentId.None?
    ensures SelectionCss(m) == ".undefined-undefined" + Highlight.BorderRule
  {
  }

  /** Type `button` and id `42` give the rule `.button-42` with the border block. */
  lemma SelectionOfButton42(m: PreviewMessage)
    requires m.selectedComponentType == Some("button") && m.selectedComponentId == Some("42")
    ensures SelectionCss(m) == ".button-42" + Highlight.BorderRule
  {
  }
}
