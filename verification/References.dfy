/** The converted references that clustering reads, after the text normalisation that regular expressions do. */
module References {
  import opened Wrappers

  /** `workKey`, `year` and `conferenceTitle` are "" when missing; `yearNumber` is the year as parsed, if it parses. */
  datatype Reference = Reference(
    id: string, workKey: string,
    normTitle: string, authStr: string, jourStr: string,
    year: string, yearNumber: Option<int>,
    authorityStatus: string, hasAuthorityData: bool, isSuspicious: bool,
    styleDetectionFailed: bool, hasEtAl: bool,
    referenceType: string, conferenceTitle: string,
    confidence: real, filledFields: nat, inputStyle: string)

  /** A map built by inserting references under their ids, in order: the last one with an id stays. */
  function MetaOf(refs: seq<Reference>, id: string): Option<Reference> {
    if refs == [] then None
    else if refs[|refs| - 1].id == id then Some(refs[|refs| - 1])
    else MetaOf(refs[..|refs| - 1], id)
  }

  lemma {:induction false} MetaExists(refs: seq<Reference>, i: nat)
    requires i < |refs|
    ensures MetaOf(refs, refs[i].id).Some? && MetaOf(refs, refs[i].id).value in refs
    decreases |refs|
  {
    var n := |refs| - 1;
    if refs[n].id != refs[i].id {
      MetaExists(refs[..n], i);
    }
  }

  ghost predicate DistinctIds(refs: seq<Reference>) {
    forall i, j :: 0 <= i < j < |refs| ==> refs[i].id != refs[j].id
  }

  lemma {:induction false} MetaIsOwn(refs: seq<Reference>, i: nat)
    requires i < |refs| && DistinctIds(refs)
    ensures MetaOf(refs, refs[i].id) == Some(refs[i])
    decreases |refs|
  {
    var n := |refs| - 1;
    if i < n {
      MetaIsOwn(refs[..n], i);
    }
  }
}
