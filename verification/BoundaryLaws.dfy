/** Which rows a run clusters, and the reason an input list is refused for. */
module BoundaryLaws {
  import opened Texts
  import opened Sorting
  import opened Clusters
  import opened Stages
  import opened EngineSteps

  // ------------------------------------------------------------------ eligibility

  /** A row is clustered as often as it is listed when its decision is one the contract names, and else never. */
  lemma {:induction false} EligibleExactly(inputs: seq<Input>, c: Contract, x: Input)
    ensures x in EligibleRows(inputs, c) <==> x in inputs && x.decision in c.eligibleDecisions
    ensures x.decision in c.eligibleDecisions ==> multiset(EligibleRows(inputs, c))[x] == multiset(inputs)[x]
  {
    if inputs != [] {
      var init, last := inputs[..|inputs| - 1], inputs[|inputs| - 1];
      EligibleExactly(init, c, x);
      assert inputs == init + [last];
    }
  }

  /** The literal prefixes of the duplicate keys. */
  lemma KeysSpelled(row: Input)
    ensures row.urlGroupId.None? ==> DuplicateKey(row) == [0x72, 0x6F, 0x77, 0x3A] + row.sourceRowId
    ensures row.urlGroupId.Some? ==> DuplicateKey(row) == [0x75, 0x72, 0x6C, 0x3A] + row.urlGroupId.value
  {
    assert ROW_PREFIX == ['r' as int, 'o' as int, 'w' as int, ':' as int];
    assert URL_PREFIX == ['u' as int, 'r' as int, 'l' as int, ':' as int];
  }

  /** The literal tags of the three kinds of fingerprint. */
  lemma TagsSpelled()
    ensures DUPLICATE_TAG == Literal("duplicate")
    ensures SYNDICATION_TAG == Literal("syndication")
    ensures INCIDENT_TAG == Literal("incident")
  {}

  // ---------------------------------------------------------------------- refusal

  /** The identifiers every row must have. */
  function Identifiers(row: Input): seq<Text> {
    [row.sourceRowId, row.rowHash, row.classificationResultId, row.classificationRunId, row.batchId, row.dataOrigin]
  }

  predicate Decided(row: Input) {
    row.decision in {Literal("include"), Literal("exclude"), Literal("review")}
  }

  /** A missing identifier is named first, then an unknown decision, then an empty URL group. */
  lemma FieldsRefusalExactly(row: Input)
    ensures FieldsRefusal(row) == Some(InvalidDecision) <==> [] !in Identifiers(row) && !Decided(row)
    ensures FieldsRefusal(row) == Some(InvalidIdentifier) <==>
            [] in Identifiers(row) || (Decided(row) && row.urlGroupId == Some([]))
    ensures FieldsRefusal(row).None? <==> [] !in Identifiers(row) && Decided(row) && row.urlGroupId != Some([])
  {
    var ids := Identifiers(row);
    assert [] in ids <==> ids[0] == [] || ids[1] == [] || ids[2] == [] || ids[3] == [] || ids[4] == [] || ids[5] == [];
  }

  ghost predicate FieldsBefore(inputs: seq<Input>, i: nat)
    requires i <= |inputs|
  {
    forall j :: 0 <= j < i ==>
      [] !in Identifiers(inputs[j]) && Decided(inputs[j]) && inputs[j].urlGroupId != Some([])
  }

  ghost predicate DistinctBefore(inputs: seq<Input>, i: nat)
    requires i <= |inputs|
  {
    forall j, k :: 0 <= j < k < i ==> inputs[j].sourceRowId != inputs[k].sourceRowId
  }

  ghost predicate TogetherBefore(inputs: seq<Input>, i: nat)
    requires i <= |inputs|
  {
    forall j :: 0 <= j < i ==>
      inputs[j].batchId == inputs[0].batchId && inputs[j].classificationRunId == inputs[0].classificationRunId
  }

  /** Nothing is wrong with the rows before the `i`-th. */
  ghost predicate CleanBefore(inputs: seq<Input>, i: nat)
    requires i <= |inputs|
  {
    FieldsBefore(inputs, i) && DistinctBefore(inputs, i) && TogetherBefore(inputs, i)
  }

  lemma FieldsAreValid(inputs: seq<Input>, i: nat)
    requires i <= |inputs|
    ensures FieldsBefore(inputs, i) <==> AllFieldsValid(inputs[..i])
  {
    forall j | 0 <= j < i
      ensures FieldsValid(inputs[..i][j]) <==>
              [] !in Identifiers(inputs[j]) && Decided(inputs[j]) && inputs[j].urlGroupId != Some([])
    {
      FieldsRefusalExactly(inputs[j]);
    }
  }

  lemma IdsAreDistinct(inputs: seq<Input>, i: nat)
    requires i <= |inputs|
    ensures DistinctBefore(inputs, i) <==> NoDuplicates(RowIds(inputs[..i]))
  {
    var ids := RowIds(inputs[..i]);
    assert forall j :: 0 <= j < i ==> ids[j] == inputs[j].sourceRowId;
  }

  lemma CleanIsAccepted(inputs: seq<Input>, i: nat)
    requires i <= |inputs|
    ensures CleanBefore(inputs, i) <==> RowsRefusal(inputs[..i]).None?
  {
    RowsRefusalMeaning(inputs[..i]);
    FieldsAreValid(inputs, i);
    IdsAreDistinct(inputs, i);
    assert TogetherBefore(inputs, i) <==> SameProvenance(inputs[..i]);
  }

  /** Main result: a list within the bound is refused for the first row something is wrong with, and for what is wrong
      with it: its fields, then an identifier an earlier row has, then a batch or a run that is not the first row's. */
  lemma RefusedForItsFirst(inputs: seq<Input>, c: Contract, i: nat)
    requires |inputs| <= c.maximumInputs && i < |inputs| && CleanBefore(inputs, i) && !CleanBefore(inputs, i + 1)
    ensures var row, fields := inputs[i], FieldsRefusal(inputs[i]);
            var again := exists j :: 0 <= j < i && inputs[j].sourceRowId == row.sourceRowId;
            RefusalOf(inputs, c) == if fields.Some? then fields else Some(if again then DuplicateSourceRow
                                                                          else MixedProvenance)
  {
    CleanIsAccepted(inputs, i);
    CleanIsAccepted(inputs, i + 1);
    RefusalOneMore(inputs, i);
    RefusalLasts(inputs, i + 1);
    var ids := RowIds(inputs[..i]);
    assert forall j :: 0 <= j < i ==> ids[j] == inputs[j].sourceRowId;
    assert inputs[i].sourceRowId in ids <==> exists j :: 0 <= j < i && inputs[j].sourceRowId == inputs[i].sourceRowId;
  }

  /** A list is refused for its length exactly beyond the bound, and refused at all exactly then or when some row is. */
  lemma RefusedExactly(inputs: seq<Input>, c: Contract)
    ensures RefusalOf(inputs, c) == Some(InputBoundExceeded) <==> |inputs| > c.maximumInputs
    ensures RefusalOf(inputs, c).None? <==> |inputs| <= c.maximumInputs && CleanBefore(inputs, |inputs|)
  {
    CleanIsAccepted(inputs, |inputs|);
    assert inputs[..|inputs|] == inputs;
    NoRowExceeds(inputs);
  }

  lemma {:induction false} NoRowExceeds(inputs: seq<Input>)
    ensures RowsRefusal(inputs) != Some(InputBoundExceeded)
  {
    if inputs != [] { NoRowExceeds(inputs[..|inputs| - 1]); }
  }
}
