/** Canonical citation labels `[E1]`, `[E2]`, ... and the evidence they are bound to. */
module CitationLabels {
  import opened CitationScanner
  import opened Decimals
  import opened Options
  import opened Strings

  /** `AnswerCitationEvidenceBinding`. */
  datatype Binding = Binding(citationLabel: string, evidenceId: string, goldenIds: seq<string>)

  const MAX_ORDINAL: nat := 12

  function LabelOf(n: nat): string { "[E" + Decimal(n) + "]" }

  /** Main result: a printed label reads back as itself, with its own number. */
  lemma LabelReadsBack(n: nat)
    requires n > 0
    ensures CitationOf(LabelOf(n)) == Some(Citation(LabelOf(n), n))
  {
    var text := LabelOf(n);
    assert text[2..|text| - 1] == Decimal(n);
    OrdinalOfDecimal(n);
  }

  /** Different numbers have different labels. */
  lemma LabelsDiffer(m: nat, n: nat)
    requires m > 0 && n > 0 && m != n
    ensures LabelOf(m) != LabelOf(n)
  {
    LabelReadsBack(m);
    LabelReadsBack(n);
  }

  /** The labels are `[E1]` to `[En]`, in order. */
  predicate LabelsInOrder(evidence: seq<Binding>) {
    forall i :: 0 <= i < |evidence| ==> evidence[i].citationLabel == LabelOf(i + 1)
  }

  /** `dict.fromkeys`: the first occurrence of each label, in order. */
  function Unique(labels: seq<string>): (unique: seq<string>)
    ensures |unique| <= |labels|
    ensures forall l :: l in unique <==> l in labels
    ensures Distinct(unique)
  {
    if labels == [] then []
    else
      var front, last := Unique(labels[..|labels| - 1]), labels[|labels| - 1];
      assert labels == labels[..|labels| - 1] + [last];
      if last in front then front else front + [last]
  }

  /** `binding_by_label`: the last binding with the label. */
  function BindingFor(evidence: seq<Binding>, name: string): (found: Option<Binding>)
    ensures found.Some? ==> found.value in evidence && found.value.citationLabel == name
    ensures found.None? ==> forall b :: b in evidence ==> b.citationLabel != name
  {
    if evidence == [] then None
    else
      var n := |evidence| - 1;
      assert evidence == evidence[..n] + [evidence[n]];
      if evidence[n].citationLabel == name then Some(evidence[n]) else BindingFor(evidence[..n], name)
  }

  /** With ordered labels, the binding of `[Ei]` is the i-th. */
  lemma {:induction false} BindingOfLabel(evidence: seq<Binding>, i: nat)
    requires LabelsInOrder(evidence) && i < |evidence|
    ensures BindingFor(evidence, LabelOf(i + 1)) == Some(evidence[i])
  {
    var n := |evidence| - 1;
    if i < n {
      LabelsDiffer(i + 1, n + 1);
      BindingOfLabel(evidence[..n], i);
    }
  }

  /** The bindings of those labels that have one. */
  function Mapped(evidence: seq<Binding>, labels: seq<string>): (mapped: seq<Binding>)
    ensures |mapped| <= |labels|
    ensures forall b :: b in mapped ==> b in evidence && b.citationLabel in labels
  {
    if labels == [] then []
    else
      var n := |labels| - 1;
      var front := Mapped(evidence, labels[..n]);
      assert labels == labels[..n] + [labels[n]];
      match BindingFor(evidence, labels[n])
      case None => front
      case Some(binding) => front + [binding]
  }

  /** Different labels are mapped to different bindings, so there are no more mapped
      bindings than there are bindings. */
  lemma MappedFits(evidence: seq<Binding>, labels: seq<string>)
    requires Distinct(labels)
    ensures |Mapped(evidence, labels)| <= |evidence|
  {
    MappedAreDistinct(evidence, labels);
    DistinctFit(Mapped(evidence, labels), evidence);
  }

  lemma {:induction false} MappedAreDistinct(evidence: seq<Binding>, labels: seq<string>)
    requires Distinct(labels)
    ensures Distinct(Mapped(evidence, labels))
  {
    if labels != [] {
      hide Mapped;
      var n := |labels| - 1;
      MappedAreDistinct(evidence, labels[..n]);
      MappedSnoc(evidence, labels[..n], labels[n]);
      assert labels[..n] + [labels[n]] == labels;
      var front := Mapped(evidence, labels[..n]);
      forall i | 0 <= i < |front|
        ensures front[i].citationLabel != labels[n]
      {
        assert front[i] in front;
      }
    } else {
      assert Mapped(evidence, labels) == [];
    }
  }

  lemma MappedSnoc(evidence: seq<Binding>, labels: seq<string>, name: string)
    ensures Mapped(evidence, labels + [name]) ==
              match BindingFor(evidence, name)
              case None => Mapped(evidence, labels)
              case Some(binding) => Mapped(evidence, labels) + [binding]
  {
  }
}
