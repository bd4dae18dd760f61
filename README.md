# Budibase builder preview: the iframe message handler

The builder shows a live preview of the app under construction inside an
iframe. The iframe's HTML is a template string whose inline script does two
things:

- **At load.** It installs a capture-phase click guard and registers
  `receiveMessage` as the window's `message` listener. Then it dispatches
  `bb-ready` so the builder knows it can start posting.
- **On each `message` event.** The builder posts a JSON text. The handler
  does the following:
  1. Ignores a falsy payload.
  2. Parses the text.
  3. Removes the two `<style>` nodes the previous message injected. The
     module-level `let styles` and `let selectedComponentStyle` track
     them, and a node that is not attached is tolerated.
  4. Appends a fresh selection `<style>` holding the rule
     `.<type>-<id>{ border: 2px solid #0055ff;  }`. Then it appends a
     fresh general `<style>` holding `data.styles`.
  5. Publishes `data.frontendDefinition` in
     `window["##BUDIBASE_FRONTEND_DEFINITION##"]`.
  6. Calls `loadBudibase` when the client runtime has defined it.

The project models this script in four modules:

- **`HeadNodes`.** `document.head` as a sequence of node identities, and
  `removeChild` with its "not attached" exception swallowed.
- **`Highlight`.** The selection rule, built by plain concatenation.
- **`PreviewProtocol`.** The window as a value (`WindowState`) and one
  event as a function (`Receive`).
  - `Valid` is the invariant every reachable window keeps.
  - The lemmas state what the handler promises:
    - the template's own head nodes are never touched;
    - there is at most one injected node of each kind;
    - styles are replaced, not accumulated;
    - the last message wins;
    - the definition is published before the runtime is invoked;
    - `bb-ready` is dispatched exactly once, after the listener is
      registered.
- **`PreviewFrame`.** The window as the script mutates it: class
  `PreviewWindow`.
  - Its fields are the head, the node texts, the two references, the
    definition slot, a log of outside effects and the next node identity.
  - Each DOM call is a small method with a narrow `modifies` frame.
  - The constructor runs the init script.
  - `ReceiveMessage` runs the handler step by step. It is proved to keep
    `Valid` and to produce exactly `Receive(old(State()), …)`, so every
    lemma of `PreviewProtocol` holds of the object.

Things the model takes as parameters:

- **`JSON.parse`** is the function parameter `parse`. `None` means the
  text did not parse; `Some(JsonNull)` means it parsed to `null`.
- **Whether `window.loadBudibase` is defined** is the boolean
  `runtimeLoaded`.
- **The template's head nodes** (two font links, the base `<style>`, the
  client `<script>`, the inline `<script>`) are the constructor's
  `template` texts. They get identities `0 .. |template|-1`. Every node the
  handler creates gets a larger identity.

Two behaviours of the script may surprise a reader, and the model states
both as the script has them:

- **Missing selection fields.** The script builds the rule by plain
  concatenation, and JavaScript turns a missing field into `undefined`. A
  message without a selection therefore yields the rule
  `.undefined-undefined{ … }` (`SelectionWithoutSelection`). For the same
  reason, a message without `styles` still replaces the general `<style>`,
  and the new node reads `undefined` (`StylesWithoutStyles`).
- **A payload that parses to `null`.** The payload `"null"` parses
  successfully. The script then removes both injected nodes and appends an
  empty selection `<style>`. Only after that does reading
  `data.selectedComponentType` at line 49 throw. The general styles are
  gone and nothing is published, while `styles` still names the removed
  node (`AbortedAtSelection`, `NullPayloadDropsStyles`).

A payload that does not parse throws at line 37, before anything is
touched, so the window stays as it was (`UnchangedIffRejected`,
`BadPayloadKeepsLastGood`).

## Model

| member | source | states |
|---|---|---|
| HeadNodes.Without | packages/builder/src/components/userInterface/AppPreview/iframeTemplate.js:39-45 | `removeChild` inside its `try`: a node not in the head leaves the head unchanged; an attached node is removed exactly once and every other node stays; a head of distinct nodes stays distinct and no longer holds the node |
| HeadNodes.WithoutKeepsOrder | packages/builder/src/components/userInterface/AppPreview/iframeTemplate.js:39-45 | removing an attached node cuts the head at its first occurrence; the nodes before and after it keep their order |
| Highlight.RuleShape | packages/builder/src/components/userInterface/AppPreview/iframeTemplate.js:49 | the selection rule is `.`, then exactly the `<type>-<id>` token, then exactly the border block `{ border: 2px solid #0055ff;  }` |
| Highlight.RuleDeterminesToken | packages/builder/src/components/userInterface/AppPreview/iframeTemplate.js:49 | two equal selection rules target the same class token |
| PreviewProtocol.TemplateTexts | packages/builder/src/components/userInterface/AppPreview/iframeTemplate.js:2-31 | the first `k` template nodes carry the template's first `k` texts, in order |
| PreviewProtocol.InitialValid | packages/builder/src/components/userInterface/AppPreview/iframeTemplate.js:61-71 | after the init script the invariant holds, the head reads exactly the template with no definition published, and both references are unset |
| PreviewProtocol.ReadyExactlyOnce | packages/builder/src/components/userInterface/AppPreview/iframeTemplate.js:64-71 | in every reachable window the click guard, then the listener, then `bb-ready` come first; `bb-ready` and the listener occur exactly once |
| PreviewProtocol.RemoveRefsLeaveTemplate | packages/builder/src/components/userInterface/AppPreview/iframeTemplate.js:39-45 | when every created node in the head is one of the two references, removing `styles` and then `selectedComponentStyle` leaves exactly the template nodes in their order, whether each reference is unset, attached or already detached |
| PreviewProtocol.RemoveTrackedIsTemplate | packages/builder/src/components/userInterface/AppPreview/iframeTemplate.js:39-45 | in a reachable window the two removals leave the template part of the head |
| PreviewProtocol.InjectedHead | packages/builder/src/components/userInterface/AppPreview/iframeTemplate.js:39-54 | after an applied message the head is the old template nodes in order, then the new selection node, then the new general node; both are fresh and distinct; the references point at them; template texts are unchanged |
| PreviewProtocol.InjectValid | packages/builder/src/components/userInterface/AppPreview/iframeTemplate.js:39-59 | an applied message keeps the invariant |
| PreviewProtocol.InjectedTexts | packages/builder/src/components/userInterface/AppPreview/iframeTemplate.js:47-54 | after an applied message the head reads the template texts, then the selection text, then the general text |
| PreviewProtocol.AbortedValid | packages/builder/src/components/userInterface/AppPreview/iframeTemplate.js:37-49 | a payload parsing to `null` still leaves a window satisfying the invariant |
| PreviewProtocol.NullPayloadDropsStyles | packages/builder/src/components/userInterface/AppPreview/iframeTemplate.js:37-49 | a `null` payload leaves the template nodes plus one empty selection node; `styles` still names the removed general node; the definition and the effects are unchanged |
| PreviewProtocol.ReceiveValid | packages/builder/src/components/userInterface/AppPreview/iframeTemplate.js:33-60 | every `message` event keeps the invariant |
| PreviewProtocol.UnchangedIffRejected | packages/builder/src/components/userInterface/AppPreview/iframeTemplate.js:35-37 | the window is left exactly as it was if and only if the payload is falsy or does not parse |
| PreviewProtocol.TemplateUntouched | packages/builder/src/components/userInterface/AppPreview/iframeTemplate.js:39-54 | every event leaves the template nodes of the head in place, in order, with their text |
| PreviewProtocol.AtMostOneOfEachKind | packages/builder/src/components/userInterface/AppPreview/iframeTemplate.js:39-54 | every created node in the head is one of the two references, so at most two created nodes are in it |
| PreviewProtocol.AppliedTexts | packages/builder/src/components/userInterface/AppPreview/iframeTemplate.js:47-54 | after a message the head is template, selection node, general node; they read the template texts, then exactly the selection rule, then exactly `data.styles` |
| PreviewProtocol.StylesWithoutStyles | packages/builder/src/components/userInterface/AppPreview/iframeTemplate.js:52-54 | a message without `styles` still ends the head with the new general node, and that node reads `undefined` |
| PreviewProtocol.PublishThenInvoke | packages/builder/src/components/userInterface/AppPreview/iframeTemplate.js:56-59 | an event only appends effects; a parsed message publishes its definition first and calls the runtime once, seeing that definition, exactly when it is loaded; any other payload publishes and calls nothing |
| PreviewProtocol.LastMessageWins | packages/builder/src/components/userInterface/AppPreview/iframeTemplate.js:39-56 | whatever event came before, applying a message gives the same head texts and published definition as applying it to the earlier window |
| PreviewProtocol.ApplyIdempotent | packages/builder/src/components/userInterface/AppPreview/iframeTemplate.js:39-54 | applying the same message twice gives the same head texts, head length and definition as applying it once |
| PreviewProtocol.BadPayloadKeepsLastGood | packages/builder/src/components/userInterface/AppPreview/iframeTemplate.js:37 | an unparsable payload after a message leaves the window that message produced |
| PreviewProtocol.FirstMessage | packages/builder/src/components/userInterface/AppPreview/iframeTemplate.js:39-54 | the first message after load removes nothing; the head reads the template, then the selection rule, then the styles |
| PreviewProtocol.SelectionWithoutSelection | packages/builder/src/components/userInterface/AppPreview/iframeTemplate.js:49 | a message without selection fields yields `.undefined-undefined` followed by the border block |
| PreviewProtocol.SelectionOfButton42 | packages/builder/src/components/userInterface/AppPreview/iframeTemplate.js:49 | a message selecting `button` / `42` yields `.button-42` followed by the border block |
| PreviewFrame.PreviewWindow.constructor | packages/builder/src/components/userInterface/AppPreview/iframeTemplate.js:61-71 | the loaded iframe: template head, unset references, then click guard, listener and `bb-ready` in that order; the invariant holds |
| PreviewFrame.PreviewWindow.InstallClickGuard | packages/builder/src/components/userInterface/AppPreview/iframeTemplate.js:64-68 | records the capture-phase click guard |
| PreviewFrame.PreviewWindow.AddMessageListener | packages/builder/src/components/userInterface/AppPreview/iframeTemplate.js:70 | records the registration of the `message` listener |
| PreviewFrame.PreviewWindow.DispatchReady | packages/builder/src/components/userInterface/AppPreview/iframeTemplate.js:71 | records the `bb-ready` dispatch |
| PreviewFrame.PreviewWindow.RemoveChild | packages/builder/src/components/userInterface/AppPreview/iframeTemplate.js:39-45 | the head becomes `Without(old head, n)`; nothing else changes |
| PreviewFrame.PreviewWindow.CreateStyle | packages/builder/src/components/userInterface/AppPreview/iframeTemplate.js:47 | returns the next fresh identity with empty text, not attached |
| PreviewFrame.PreviewWindow.AppendChild | packages/builder/src/components/userInterface/AppPreview/iframeTemplate.js:48 | the node is appended at the end of the head |
| PreviewFrame.PreviewWindow.AppendText | packages/builder/src/components/userInterface/AppPreview/iframeTemplate.js:50 | the node's text grows by the appended text node |
| PreviewFrame.PreviewWindow.Publish | packages/builder/src/components/userInterface/AppPreview/iframeTemplate.js:56 | the definition slot holds the definition, and the publication is recorded |
| PreviewFrame.PreviewWindow.LoadRuntime | packages/builder/src/components/userInterface/AppPreview/iframeTemplate.js:58 | records a runtime call together with the definition it finds in the slot |
| PreviewFrame.PreviewWindow.StartSelection | packages/builder/src/components/userInterface/AppPreview/iframeTemplate.js:39-48 | removes both tracked nodes, then creates, remembers and appends the selection node: the state `AbortedAtSelection` describes |
| PreviewFrame.PreviewWindow.FinishMessage | packages/builder/src/components/userInterface/AppPreview/iframeTemplate.js:49-59 | completes a parsed message to exactly the state `Apply` describes |
| PreviewFrame.PreviewWindow.ReceiveMessage | packages/builder/src/components/userInterface/AppPreview/iframeTemplate.js:33-60 | keeps the invariant and ends in exactly `Receive(old state, …)`; it throws if and only if the payload is non-empty and either does not parse or parses to `null` |

## Left out

- The template's markup (lines 1-31 and 74-77) is static. Only its head nodes appear, as identities with a text each.
- The click guard's browser behaviour (`preventDefault` and `stopPropagation` in the capture phase) is DOM event dispatch. The model records only that the guard was installed, and when.
- `loadBudibase` and the rendering runtime come from `/assets/budibase-client.js`, which is not part of this model.
  - Only the call is recorded, with the definition it finds.
  - The model assumes that the runtime does not touch the head or the two references.
  - Whether `window.loadBudibase` is defined is the parameter `runtimeLoaded`. The client script is not modelled: it may fail to load, or may not define `loadBudibase`.
- `JSON.parse` is a parameter, because it is a library function.
  - A parsed value other than `null` is reduced to the four fields the handler reads.
  - Fields that are present but are not strings are not modelled. Their string conversion is JavaScript's, for example `[object Object]`.
- `event.data` is modelled as absent or a string. A non-string value posted by structured clone is left out, because the builder posts JSON text.
- PreviewFrame.PreviewWindow.ReceiveMessage: an exception escaping the listener is reported as the flag `threw`. A browser reports such an exception to the console and goes on dispatching events, which the model does not capture.
- A text node appended to a `<style>` is merged into that node's text. The DOM keeps it as a separate child node.
- The `postMessage` transport, the event loop and anything across frames are left out. The model applies events one at a time, which matches the browser's run-to-completion dispatch.
- The other files of the repository are not part of this model. They are tests over HTTP and a database, component re-exports, access-level constants and test environment setup, and none of them holds logic of the handler.
