/**
 * The preview iframe as the inline script runs it: the window's head, the two
 * module-level `let` references, the global definition slot and the record of
 * outside effects are fields that `receiveMessage` updates in place, one DOM
 * call at a time. Each method is proved to produce the state the value model
 * in `PreviewProtocol` describes, so the lemmas there hold of this object.
 *
 * Only the constructor and `ReceiveMessage` are operations on the window and
 * keep its invariant `Valid`. The other methods are single steps of those two
 * (one DOM call or one assignment each); they promise their own effect only,
 * and a window between two steps need not satisfy `Valid`.
 */
module PreviewFrame {
  import opened Optional
  import opened HeadNodes
  import opened PreviewProtocol

  class PreviewWindow {
    /** How many head nodes the HTML template put there before the script ran. */
    const templateNodes: nat
    /** `document.head`'s children, in order. */
    var head: seq<NodeId>
    /** The text content of each node. */
    var text: map<NodeId, string>
    /** `let styles`: the general `<style>` injected last, if any. */
    var styles: Option<NodeId>
    /** `let selectedComponentStyle`: the selection `<style>` injected last, if any. */
    var selectedComponentStyle: Option<NodeId>
    /** `window["##BUDIBASE_FRONTEND_DEFINITION##"]`. */
    var definitionSlot: Option<Definition>
    /** Effects visible outside the head, in the order they happened. */
    var effects: seq<Effect>
    /** The identity `document.createElement` hands out next. */
    var nextNode: NodeId

    /** The window as a value. */
    function State(): WindowState
      reads this
    {
      WindowState(templateNodes, head, text, styles, selectedComponentStyle, definitionSlot, effects, nextNode)
    }

    ghost predicate Valid()
      reads this
    {
      PreviewProtocol.Valid(State())
    }

    /**
     * The iframe loads: the template's head nodes are in place with their
     * texts, then the inline script installs the click guard, adds the message
     * listener and dispatches `bb-ready`.
     */
    constructor (template: seq<string>)
      ensures State() == Initial(template)
      ensures Valid()
    {
      templateNodes := |template|;
      head := Range(|template|);
      text := TemplateText(template);
      styles := None;
      selectedComponentStyle := None;
      definitionSlot := None;
      effects := [];
      nextNode := |template|;
      new;
      InstallClickGuard();
      AddMessageListener();
      DispatchReady();
      InitialValid(template);
    }

    /** `document.addEventListener("click", …, true)`: the capture-phase guard. */
    method InstallClickGuard()
      modifies this`effects
      ensures effects == old(effects) + [ClickGuardInstalled]
    {
      effects := effects + [ClickGuardInstalled];
    }

    /** `window.addEventListener('message', receiveMessage)`. */
    method AddMessageListener()
      modifies this`effects
      ensures effects == old(effects) + [MessageListenerAdded]
    {
      effects := effects + [MessageListenerAdded];
    }

    /** `window.dispatchEvent(new Event('bb-ready'))`. */
    method DispatchReady()
      modifies this`effects
      ensures effects == old(effects) + [ReadyDispatched]
    {
      effects := effects + [ReadyDispatched];
    }

    /** `try { document.head.removeChild(n) } catch (_) { }`. */
    method RemoveChild(n: NodeId)
      modifies this`head
      ensures head == Without(old(head), n)
    {
      if n in head {
        head := Without(head, n);
      }
    }

    /** `document.createElement('style')`: a fresh, empty, detached node. */
    method CreateStyle() returns (n: NodeId)
      modifies this`text, this`nextNode
      ensures n == old(nextNode) && nextNode == old(nextNode) + 1
      ensures text == old(text)[n := ""]
    {
      n := nextNode;
      nextNode := nextNode + 1;
      text := text[n := ""];
    }

    /**
     * `document.head.appendChild(n)` for a node not yet attached, which is how
     * the handler calls it. A node already in the head would be moved instead.
     */
    method AppendChild(n: NodeId)
      modifies this`head
      ensures head == old(head) + [n]
    {
      head := head + [n];
    }

    /** `n.appendChild(document.createTextNode(s))`: the node's text grows by `s`. */
    method AppendText(n: NodeId, s: string)
      requires n in text
      modifies this`text
      ensures text == old(text)[n := old(text)[n] + s]
    {
      text := text[n := text[n] + s];
    }

    /** The write of the global definition slot. */
    method Publish(d: Option<Definition>)
      modifies this`definitionSlot, this`effects
      ensures definitionSlot == d
      ensures effects == old(effects) + [Published(d)]
    {
      definitionSlot := d;
      effects := effects + [Published(d)];
    }

    /** `loadBudibase({ window, localStorage })`: the runtime reads the definition slot as it is now. */
    method LoadRuntime()
      modifies this`effects
      ensures effects == old(effects) + [LoadBudibase(definitionSlot)]
    {
      effects := effects + [LoadBudibase(definitionSlot)];
    }

    /**
     * `receiveMessage(event)`. `parse` stands for `JSON.parse` and
     * `runtimeLoaded` for whether `window.loadBudibase` is defined; `threw`
     * is whether the handler ended with an uncaught exception (a payload that
     * does not parse, or one that parses to `null`).
     */
    method ReceiveMessage(data: EventData, parse: string -> Option<Parsed>, runtimeLoaded: bool) returns (threw: bool)
      requires Valid()
      modifies this
      ensures Valid()
      ensures State() == Receive(old(State()), data, parse, runtimeLoaded)
      ensures threw <==> !Falsy(data) && (parse(data.text).None? || parse(data.text) == Some(JsonNull))
    {
      ReceiveValid(State(), data, parse, runtimeLoaded);
      if Falsy(data) {
        return false;
      }
      var parsed := parse(data.text);
      if parsed.None? {
        return true;
      }
      ghost var before := State();
      var sel := StartSelection();
      if parsed.value.JsonNull? {
        return true;
      }
      FinishMessage(before, sel, parsed.value.message, runtimeLoaded);
      return false;
    }

    /**
     * Lines up to the selection text: both tracked nodes removed (`styles`
     * first), then a fresh selection `<style>` created, remembered and appended.
     */
    method StartSelection() returns (sel: NodeId)
      modifies this`head, this`text, this`nextNode, this`selectedComponentStyle
      ensures sel == old(nextNode)
      ensures State() == AbortedAtSelection(old(State()))
    {
      if styles.Some? {
        RemoveChild(styles.value);
      }
      if selectedComponentStyle.Some? {
        RemoveChild(selectedComponentStyle.value);
      }
      sel := CreateStyle();
      selectedComponentStyle := Some(sel);
      AppendChild(sel);
    }

    /**
     * The rest of a parsed message: the selection rule written into `sel`, the
     * general `<style>` created and filled, the definition published and the
     * runtime invoked when it is loaded.
     */
    method FinishMessage(ghost before: WindowState, sel: NodeId, m: PreviewMessage, runtimeLoaded: bool)
      requires State() == AbortedAtSelection(before) && sel == before.nextNode
      modifies this`head, this`text, this`nextNode, this`styles, this`definitionSlot, this`effects
      ensures State() == Apply(before, m, runtimeLoaded)
    {
      AppendText(sel, SelectionCss(m));
      assert "" + SelectionCss(m) == SelectionCss(m);
      assert text == before.text[sel := SelectionCss(m)];
      var sty := CreateStyle();
      styles := Some(sty);
      AppendChild(sty);
      AppendText(sty, ToText(m.styles));
      assert "" + ToText(m.styles) == ToText(m.styles);
      assert head == RemoveTracked(before) + [sel, sty];
      assert text == before.text[sel := SelectionCss(m)][sty := ToText(m.styles)];
      Publish(m.frontendDefinition);
      if runtimeLoaded {
        LoadRuntime();
      }
    }
  }
}
