/** The mock strengths resolver: a fixed table from candidate id to four
    descriptive strings, with a fixed fallback for every other id. */
module Strengths {
  import opened Types
  import CandidateData

  /** The strengths table, keyed by candidate id. */
  const MockStrengthsMap: map<string, seq<string>> := map[
    "1" := [
      "Strong leadership in frontend architecture",
      "Deep expertise in React ecosystem",
      "Excellent at mentoring junior developers",
      "Track record of delivering scalable solutions"],
    "2" := [
      "Versatile full-stack problem solver",
      "Strong API design capabilities",
      "Proven cloud infrastructure experience",
      "Fast learner with diverse tech stack"],
    "3" := [
      "Expert in microservices architecture",
      "Strong containerization skills",
      "Focus on system reliability and performance",
      "Collaborative team player"],
    "4" := [
      "Infrastructure automation specialist",
      "Deep understanding of CI/CD pipelines",
      "Strong security-first mindset",
      "Experience with high-scale deployments"],
    "5" := [
      "User-centric design thinking",
      "Strong prototyping and iteration skills",
      "Experience building design systems",
      "Excellent cross-functional collaboration"],
    "6" := [
      "Cross-platform mobile expertise",
      "Strong focus on user experience",
      "Quick at adopting new technologies",
      "Excellent debugging and optimization skills"]
  ]

  /** The strengths given for an id that has no table entry. */
  const DefaultStrengths: seq<string> := [
    "Adaptable professional",
    "Strong communication skills",
    "Growth mindset",
    "Team-oriented approach"
  ]

  /** The table's entry for `candidateId`, or the fallback when it has none.
      Total: every string gets an answer, whether or not a candidate with
      that id exists. */
  function GenerateStrengthsServer(candidateId: string): (r: seq<string>)
    ensures |r| == 4
    ensures r == DefaultStrengths <==> candidateId !in MockStrengthsMap
    ensures candidateId in MockStrengthsMap ==> r == MockStrengthsMap[candidateId]
  {
    if candidateId in MockStrengthsMap then MockStrengthsMap[candidateId] else DefaultStrengths
  }

  /** The client-side entry point; it delegates to the server lookup. */
  function GenerateStrengths(candidateId: string): (r: seq<string>)
    ensures |r| == 4
    ensures r == GenerateStrengthsServer(candidateId)
  {
    GenerateStrengthsServer(candidateId)
  }

  /** The table has entries for exactly the six fixture ids. */
  lemma TableKeysAreFixtureIds()
    ensures MockStrengthsMap.Keys == set i | 0 <= i < |CandidateData.FixtureIds| :: CandidateData.FixtureIds[i]
  {
    var ids := CandidateData.FixtureIds;
    assert ids[0] == "1" && ids[1] == "2" && ids[2] == "3";
    assert ids[3] == "4" && ids[4] == "5" && ids[5] == "6";
  }

  /** Every listed candidate gets its own table entry, never the fallback. */
  lemma ListedCandidatesHaveEntries(c: Types.Candidate)
    requires c in CandidateData.GetCandidates()
    ensures GenerateStrengths(c.id) == MockStrengthsMap[c.id]
    ensures GenerateStrengths(c.id) != DefaultStrengths
  {
  }

  /** Candidate "1" gets its own four strengths; an unknown id gets the
      fallback. */
  lemma KnownAndUnknownIds()
    ensures GenerateStrengths("1")[0] == "Strong leadership in frontend architecture"
    ensures GenerateStrengths("nonexistent-id") == DefaultStrengths
    ensures GenerateStrengths("nonexistent-id")[0] == "Adaptable professional"
  {
  }
}
