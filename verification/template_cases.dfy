/**
 * The reading of completion answers on particular inputs.
 */
module TemplateCases {
  import opened Text
  import opened TemplateRoute

  /** An answer naming both labels is read as react, wherever "react"
      stands in it. */
  lemma BothLabelsReadAsReact()
    ensures Classify("Node, or maybe React") == React
  {
    var t := "Node, or maybe React";
    assert Lower(t)[15..20] == "react";
    assert OccursAt(Lower(t), "react", 15);
  }

  /** A one-word answer in capitals with surrounding whitespace. */
  lemma PaddedCapitalNode()
    ensures Classify(" NODE\n") == Node
  {
    var t := " NODE\n";
    assert Lower(t) == " node\n";
    assert Lower(t)[1..5] == "node";
    assert OccursAt(Lower(t), "node", 1);
    FirstCharAbsent(Lower(t), "react");
  }

  /** A label inside a longer word still counts: "Reactive" is read as
      react. */
  lemma LabelInsideWord()
    ensures Classify("Reactive UI") == React
  {
    var t := "Reactive UI";
    assert Lower(t)[0..5] == "react";
    assert OccursAt(Lower(t), "react", 0);
  }

  /** A word cannot occur in a string that lacks its first character. */
  lemma FirstCharAbsent(s: string, w: string)
    requires |w| > 0 && forall k :: 0 <= k < |s| ==> s[k] != w[0]
    ensures !exists k :: OccursAt(s, w, k)
  {
    forall k ensures !OccursAt(s, w, k) {
      if 0 <= k && k + |w| <= |s| {
        assert s[k..k + |w|][0] == s[k];
      }
    }
  }

  /** An answer naming neither label is unresolved, and the route answers
      403 with no bundle. */
  lemma NeitherLabel(sc: Scaffolds)
    ensures Classify("Svelte") == Unresolved
    ensures Respond(Reply("Svelte"), sc) == Forbidden(Undetermined)
  {
    var t := "Svelte";
    assert Lower(t) == "svelte";
    FirstCharAbsent(Lower(t), "react");
    FirstCharAbsent(Lower(t), "node");
  }
}
