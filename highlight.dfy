/**
 * The CSS rule the preview uses to outline the selected component: a class
 * selector `.<type>-<id>` followed by a fixed border declaration. The
 * rendering runtime tags each component's element with that class.
 */
module Highlight {
  /** The declaration block of the highlight, spaces included. */
  const BorderRule: string := "{ border: 2px solid #0055ff;  }"

  /** The class token `<type>-<id>` the rule targets. */
  function ClassToken(componentType: string, componentId: string): string {
    componentType + "-" + componentId
  }

  /** The rule text: `.`, the class token, the border block, by plain concatenation. */
  function Rule(componentType: string, componentId: string): string {
    var selector := "." + ClassToken(componentType, componentId);
    selector + BorderRule
  }

  /**
   * The rule reads back: a `.`, then exactly the class token, then exactly
   * the border block.
   */
  lemma RuleShape(componentType: string, componentId: string)
    ensures var css, token := Rule(componentType, componentId), ClassToken(componentType, componentId);
      && |css| == 1 + |token| + |BorderRule|
      && css[0] == '.'
      && css[1..|css| - |BorderRule|] == token
      && css[|css| - |BorderRule|..] == BorderRule
  {
  }

  /** The rule determines the class token it targets. */
  lemma RuleDeterminesToken(t1: string, i1: string, t2: string, i2: string)
    requires Rule(t1, i1) == Rule(t2, i2)
    ensures ClassToken(t1, i1) == ClassToken(t2, i2)
  {
    RuleShape(t1, i1);
    RuleShape(t2, i2);
  }
}
