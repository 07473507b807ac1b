/** The exact code, and the frozen plan inputs, a proof or an integration is bound to. */
module Revisions {
  import opened Values
  import opened Sorting

  datatype RepositoryRef = RepositoryRef(workspace: string, project: string, repository: string)

  datatype BatchRef = BatchRef(repository: RepositoryRef, key: string)

  datatype RefKind = CandidateRef | IntegrationRef | ReviewCheckpoint | DeliveryCandidate | TargetBranch | Tag

  datatype Binding = Binding(repository: RepositoryRef, refKind: RefKind, headSha: string, treeSha: string,
                             parentSha: Option<string>, batch: BatchRef, generation: nat, manifestDigest: string,
                             criteriaDigest: string, policyDigest: string, environmentDigest: Option<string>,
                             boundAt: int)

  /** The batch sits in the bound repository, and no commit is its own parent. */
  predicate ValidBinding(b: Binding) {
    && b.generation >= 1
    && b.batch.repository == b.repository
    && b.parentSha != Some(b.headSha)
  }

  /** A revision of its own batch's repository, with a generation and a parent other than itself. */
  ghost predicate Bound(b: Binding) {
    b.generation > 0 && b.repository == b.batch.repository && (b.parentSha.Some? ==> b.headSha != b.parentSha.value)
  }

  lemma BoundExact(b: Binding)
    ensures ValidBinding(b) <==> Bound(b)
  {
  }

  /** `_reject_duplicates`. */
  method RejectDuplicates<T(==)>(values: seq<T>) returns (ok: bool)
    ensures ok <==> Distinct(values)
  {
    var seen: set<T> := {};
    for i := 0 to |values|
      invariant seen == set x | x in values[..i]
      invariant Distinct(values[..i])
    {
      assert values[..i + 1] == values[..i] + [values[i]];
      if values[i] in seen {
        var j :| 0 <= j < i && values[..i][j] == values[i];
        assert values[j] == values[i];
        return false;
      }
      seen := seen + {values[i]};
    }
    assert values[..|values|] == values;
    return true;
  }
}
