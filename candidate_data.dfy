/** The read-only candidate repository: a fixed list of six records, a
    "list all" query and a "find by id" query. */
module CandidateData {
  import opened Types

  /** The fixture, in declaration order. */
  const MockCandidates: seq<Candidate> := [
    Candidate("1", "Sarah Chen", "sarah.chen@example.com", "Senior Frontend Engineer", 7,
      ["React", "TypeScript", "Next.js", "Tailwind CSS", "Node.js"],
      Some("/professional-woman-developer.png"), "San Francisco, CA", Immediate),
    Candidate("2", "Marcus Johnson", "marcus.j@example.com", "Full Stack Developer", 5,
      ["Python", "Django", "React", "PostgreSQL", "AWS"],
      Some("/professional-man-developer.png"), "Austin, TX", TwoWeeks),
    Candidate("3", "Aisha Patel", "aisha.patel@example.com", "Backend Engineer", 4,
      ["Go", "Kubernetes", "Docker", "MongoDB", "gRPC"],
      Some("/professional-woman-engineer.png"), "Seattle, WA", OneMonth),
    Candidate("4", "David Kim", "david.kim@example.com", "DevOps Engineer", 6,
      ["Terraform", "Jenkins", "AWS", "Linux", "Ansible"],
      Some("/professional-engineer.png"), "New York, NY", TwoWeeks),
    Candidate("5", "Elena Rodriguez", "elena.r@example.com", "Product Designer", 8,
      ["Figma", "User Research", "Prototyping", "Design Systems", "HTML/CSS"],
      Some("/professional-woman-designer.png"), "Los Angeles, CA", Immediate),
    Candidate("6", "James Wilson", "james.wilson@example.com", "Mobile Developer", 3,
      ["React Native", "Swift", "Kotlin", "Firebase", "GraphQL"],
      Some("/professional-mobile-developer.png"), "Chicago, IL", OneMonth)
  ]

  /** The ids of the fixture, in declaration order. */
  const FixtureIds: seq<string> := ["1", "2", "3", "4", "5", "6"]

  /** No two records of `s` share an id. */
  ghost predicate DistinctIds(s: seq<Candidate>) {
    forall i, j :: 0 <= i < j < |s| ==> s[i].id != s[j].id
  }

  /** The whole fixture: six records with ids "1" to "6", in order. */
  function GetCandidates(): (r: seq<Candidate>)
    ensures r == MockCandidates
    ensures |r| == 6
    ensures forall i :: 0 <= i < |r| ==> r[i].id == FixtureIds[i]
  {
    MockCandidates
  }

  /** The fixture ids are pairwise distinct. */
  lemma FixtureIdsDistinct()
    ensures DistinctIds(GetCandidates())
  {
  }

  /** The first record of `s` whose id is exactly `id`, or `None` when there
      is none (the array `find` of the repository). */
  function Find(s: seq<Candidate>, id: string): (r: Option<Candidate>)
    ensures r.Some? ==> r.value in s && r.value.id == id
    ensures r.None? <==> forall c :: c in s ==> c.id != id
  {
    if s == [] then None
    else if s[0].id == id then Some(s[0])
    else Find(s[1..], id)
  }

  /** `Find` returns the record at the first index carrying `id`. */
  lemma {:induction false} FindIsFirstMatch(s: seq<Candidate>, id: string, k: nat)
    requires k < |s| && s[k].id == id
    requires forall j :: 0 <= j < k ==> s[j].id != id
    ensures Find(s, id) == Some(s[k])
  {
    if k > 0 {
      FindIsFirstMatch(s[1..], id, k - 1);
    }
  }

  /** The fixture record with the given id, or `None`. */
  function GetCandidateById(id: string): (r: Option<Candidate>)
    ensures r.Some? ==> r.value in GetCandidates() && r.value.id == id
    ensures r.None? <==> id !in FixtureIds
  {
    Find(MockCandidates, id)
  }

  /** Every listed candidate is found again by its own id. */
  lemma LookupOfListed(c: Candidate)
    requires c in GetCandidates()
    ensures GetCandidateById(c.id) == Some(c)
  {
    var s := GetCandidates();
    var k :| 0 <= k < |s| && s[k] == c;
    FixtureIdsDistinct();
    FindIsFirstMatch(s, c.id, k);
  }

  /** An id that no record carries is not found. */
  lemma UnknownIdNotFound()
    ensures GetCandidateById("nonexistent-id") == None
  {
  }
}
