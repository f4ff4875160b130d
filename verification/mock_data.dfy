/**
 * The two hard-coded ballots the front end ships with: `VOTING_DATA`
 * (four posts keyed by slug, used by the voting page and the legacy
 * vote mapping) and `POSTS` (four posts keyed by number, used by the
 * older voting dashboard). Photos and departments are display-only and
 * are left out; only what the logic reads is kept.
 */
module MockData {

  datatype MockCandidate = MockCandidate(id: string, name: string)

  datatype MockPost = MockPost(id: string, title: string, candidates: seq<MockCandidate>)

  /** `VOTING_DATA`: posts and candidates in declaration order. */
  const VotingData: seq<MockPost> := [
    MockPost("president", "President", [
      MockCandidate("p1", "Ramesh Sharma"),
      MockCandidate("p2", "Karma Bhutia"),
      MockCandidate("p3", "Sunita Pradhan"),
      MockCandidate("p4", "Dawa Lepcha")]),
    MockPost("gen_sec", "General Secretary", [
      MockCandidate("gs1", "Arun Kumar"),
      MockCandidate("gs2", "Pem Dorjee"),
      MockCandidate("gs3", "Sita Rai"),
      MockCandidate("gs4", "Bikesh Thapa")]),
    MockPost("vice_pres", "Vice President", [
      MockCandidate("vp1", "Nima Sherpa"),
      MockCandidate("vp2", "Gopal Chettri"),
      MockCandidate("vp3", "Anita Limbu"),
      MockCandidate("vp4", "Robert Lepcha")]),
    MockPost("treasurer", "Treasurer", [
      MockCandidate("t1", "Mina Subba"),
      MockCandidate("t2", "Rajesh Gupta"),
      MockCandidate("t3", "Sonam Tashi"),
      MockCandidate("t4", "Pema Wangchuk")])
  ]

  datatype DashboardPost = DashboardPost(id: int, title: string, candidateIds: seq<string>)

  /** `POSTS` of the older dashboard: numeric post ids 1 to 4. */
  const DashboardPosts: seq<DashboardPost> := [
    DashboardPost(1, "President", ["p1_c1", "p1_c2", "p1_c3", "p1_c4"]),
    DashboardPost(2, "General Secretary", ["p2_c1", "p2_c2", "p2_c3", "p2_c4"]),
    DashboardPost(3, "Treasurer", ["p3_c1", "p3_c2", "p3_c3", "p3_c4"]),
    DashboardPost(4, "Vice President", ["p4_c1", "p4_c2", "p4_c3", "p4_c4"])
  ]
}
