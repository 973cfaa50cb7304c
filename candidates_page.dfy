/** How the list view turns its `sort` query value into a sort selector and
    lists the candidates. */
module CandidatesPage {
  import opened Types
  import CandidateData
  import Sorting

  /** The selector handed to the sorter: "name-asc" when the query carries
      no `sort` value, otherwise that value unchecked. */
  function SelectedSort(param: Option<string>): (sortBy: string)
    ensures param.None? ==> Sorting.ByName(sortBy)
    ensures param.Some? ==> sortBy == param.value
  {
    match param
    case None => NameAsc.Label()
    case Some(v) => v
  }

  /** The candidates the list view shows for a query value. */
  function ListedCandidates(param: Option<string>): (r: seq<Candidate>)
    ensures multiset(r) == multiset(CandidateData.GetCandidates())
    ensures Sorting.Sorted(SelectedSort(param), r)
    ensures Sorting.Stable(SelectedSort(param), r, CandidateData.GetCandidates())
  {
    Sorting.SortCandidates(CandidateData.GetCandidates(), SelectedSort(param))
  }

  /** A query value that is present but is not "name-asc" (a typo, say)
      sorts by experience, not by the default name order. */
  lemma UnrecognisedQuerySortsByExperience(v: string)
    requires v != NameAsc.Label()
    ensures ListedCandidates(Some(v))
         == Sorting.SortCandidates(CandidateData.GetCandidates(), ExperienceDesc.Label())
  {
    Sorting.UnrecognisedSelectorSortsByExperience(CandidateData.GetCandidates(), v);
  }
}
