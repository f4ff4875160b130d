/**
 * The legacy, table-driven conversion of a ballot to wire votes
 * (src/lib/voteMapping.ts). Post slugs map through a fixed four-entry
 * table; a candidate slug maps to its 1-based position inside its own
 * post of `VOTING_DATA`. Unlike the identifier codec, the candidate id
 * it produces does not depend on the post, so the same small integers
 * are reused by every post.
 */
module VoteMapping {
  import opened Common
  import opened JsRecord
  import opened MockData
  import IdCodec

  type WireVote = IdCodec.WireVote

  /** `getPostIdMapping`. */
  function PostIdMapping(): map<string, nat> {
    map["president" := 1, "gen_sec" := 2, "vice_pres" := 3, "treasurer" := 4]
  }

  /** The fixed table has four slugs, numbered 1 to 4 in the order of `VOTING_DATA`. */
  lemma PostIdMappingFollowsVotingData()
    ensures PostIdMapping().Keys == set i | 0 <= i < |VotingData| :: VotingData[i].id
    ensures PostIdMapping().Values == {1, 2, 3, 4}
    ensures forall i :: 0 <= i < |VotingData| ==> PostIdMapping()[VotingData[i].id] == i + 1
  {
    var m := PostIdMapping();
    assert m["president"] == 1 && m["gen_sec"] == 2 && m["vice_pres"] == 3 && m["treasurer"] == 4;
    assert VotingData[0].id == "president" && VotingData[1].id == "gen_sec";
    assert VotingData[2].id == "vice_pres" && VotingData[3].id == "treasurer";
  }

  // ---------------------------------------------------------------------
  // getCandidateIdMapping: the nested forEach, one assignment at a time
  // ---------------------------------------------------------------------

  /** The inner `forEach`: `mapping[cs[k].id] = offset + k + 1` for each k in order. */
  function AssignPositions(m: map<string, nat>, cs: seq<MockCandidate>, offset: nat): map<string, nat>
    decreases |cs|
  {
    if |cs| == 0 then m else AssignPositions(m[cs[0].id := offset + 1], cs[1..], offset + 1)
  }

  /** The outer `forEach` over the posts. */
  function AssignPosts(m: map<string, nat>, ps: seq<MockPost>): map<string, nat>
    decreases |ps|
  {
    if |ps| == 0 then m else AssignPosts(AssignPositions(m, ps[0].candidates, 0), ps[1..])
  }

  /** `getCandidateIdMapping`. */
  function CandidateIdMapping(): map<string, nat> {
    AssignPosts(map[], VotingData)
  }

  function CandidateIds(cs: seq<MockCandidate>): set<string> {
    set j | 0 <= j < |cs| :: cs[j].id
  }

  function AllCandidateIds(ps: seq<MockPost>): set<string> {
    set i, j | 0 <= i < |ps| && 0 <= j < |ps[i].candidates| :: ps[i].candidates[j].id
  }

  /** No candidate slug occurs twice anywhere in the posts. */
  ghost predicate DistinctCandidateIds(ps: seq<MockPost>) {
    forall i, j, i', j' ::
      (&& 0 <= i < |ps| && 0 <= j < |ps[i].candidates|
       && 0 <= i' < |ps| && 0 <= j' < |ps[i'].candidates|
       && ps[i].candidates[j].id == ps[i'].candidates[j'].id)
      ==> i == i' && j == j'
  }

  /** The inner loop gives each candidate its position, counted from `offset`, and leaves other keys alone. */
  lemma {:induction false} AssignPositionsSpec(m: map<string, nat>, cs: seq<MockCandidate>, offset: nat)
    requires forall j, j' :: 0 <= j < j' < |cs| ==> cs[j].id != cs[j'].id
    ensures AssignPositions(m, cs, offset).Keys == m.Keys + CandidateIds(cs)
    ensures forall j :: 0 <= j < |cs| ==> AssignPositions(m, cs, offset)[cs[j].id] == offset + j + 1
    ensures forall k :: k in m && k !in CandidateIds(cs) ==> AssignPositions(m, cs, offset)[k] == m[k]
    decreases |cs|
  {
    if |cs| > 0 {
      var m' := m[cs[0].id := offset + 1];
      AssignPositionsSpec(m', cs[1..], offset + 1);
      assert CandidateIds(cs) == {cs[0].id} + CandidateIds(cs[1..]) by {
        forall k | k in CandidateIds(cs) ensures k in {cs[0].id} + CandidateIds(cs[1..]) {
          var j :| 0 <= j < |cs| && cs[j].id == k;
          if j > 0 { assert cs[1..][j - 1].id == k; }
        }
      }
      forall j | 0 <= j < |cs|
        ensures AssignPositions(m, cs, offset)[cs[j].id] == offset + j + 1
      {
        if j > 0 {
          assert cs[j] == cs[1..][j - 1];
        } else {
          assert cs[0].id !in CandidateIds(cs[1..]);
        }
      }
    }
  }

  lemma AllCandidateIdsCons(ps: seq<MockPost>)
    requires |ps| > 0
    ensures AllCandidateIds(ps) == CandidateIds(ps[0].candidates) + AllCandidateIds(ps[1..])
  {
    var rest := ps[1..];
    forall k | k in AllCandidateIds(ps) ensures k in CandidateIds(ps[0].candidates) + AllCandidateIds(rest) {
      var i, j :| 0 <= i < |ps| && 0 <= j < |ps[i].candidates| && ps[i].candidates[j].id == k;
      if i > 0 { assert rest[i - 1].candidates[j].id == k; }
    }
    forall k | k in AllCandidateIds(rest) ensures k in AllCandidateIds(ps) {
      var i, j :| 0 <= i < |rest| && 0 <= j < |rest[i].candidates| && rest[i].candidates[j].id == k;
      assert ps[i + 1].candidates[j].id == k;
    }
  }

  lemma DistinctTail(ps: seq<MockPost>)
    requires |ps| > 0 && DistinctCandidateIds(ps)
    ensures DistinctCandidateIds(ps[1..])
    ensures forall j :: 0 <= j < |ps[0].candidates| ==> ps[0].candidates[j].id !in AllCandidateIds(ps[1..])
    ensures forall j, j' :: 0 <= j < j' < |ps[0].candidates| ==> ps[0].candidates[j].id != ps[0].candidates[j'].id
  {
    var rest := ps[1..];
    forall i, j, i', j' |
      && 0 <= i < |rest| && 0 <= j < |rest[i].candidates|
      && 0 <= i' < |rest| && 0 <= j' < |rest[i'].candidates|
      && rest[i].candidates[j].id == rest[i'].candidates[j'].id
      ensures i == i' && j == j'
    {
      assert ps[i + 1] == rest[i] && ps[i' + 1] == rest[i'];
    }
    assert forall i', j' :: 0 <= i' < |rest| && 0 <= j' < |rest[i'].candidates| ==>
             rest[i'].candidates[j'] == ps[i' + 1].candidates[j'];
  }

  /** The nested loops give each candidate of distinct-slug posts its 1-based position within its own post. */
  lemma {:induction false} AssignPostsSpec(m: map<string, nat>, ps: seq<MockPost>)
    requires DistinctCandidateIds(ps)
    ensures AssignPosts(m, ps).Keys == m.Keys + AllCandidateIds(ps)
    ensures forall i, j :: 0 <= i < |ps| && 0 <= j < |ps[i].candidates| ==>
              AssignPosts(m, ps)[ps[i].candidates[j].id] == j + 1
    ensures forall k :: k in m && k !in AllCandidateIds(ps) ==> AssignPosts(m, ps)[k] == m[k]
    decreases |ps|
  {
    if |ps| > 0 {
      var cs := ps[0].candidates;
      var rest := ps[1..];
      var m' := AssignPositions(m, cs, 0);
      DistinctTail(ps);
      AssignPositionsSpec(m, cs, 0);
      AssignPostsSpec(m', rest);
      AllCandidateIdsCons(ps);
      var r := AssignPosts(m, ps);
      assert r == AssignPosts(m', rest);
      forall i, j | 0 <= i < |ps| && 0 <= j < |ps[i].candidates|
        ensures r[ps[i].candidates[j].id] == j + 1
      {
        if i > 0 {
          assert ps[i] == rest[i - 1];
        }
      }
    } else {
      assert AllCandidateIds(ps) == {};
    }
  }

  /** Each slug of `VOTING_DATA` starts with a letter naming its post and ends with its 1-based position. */
  lemma VotingDataSlugShape()
    ensures |VotingData| == 4
    ensures forall i :: 0 <= i < 4 ==> |VotingData[i].candidates| == 4
    ensures forall i, j :: 0 <= i < 4 && 0 <= j < 4 ==>
              |VotingData[i].candidates[j].id| > 0
              && VotingData[i].candidates[j].id[0] == "pgvt"[i]
              && VotingData[i].candidates[j].id[|VotingData[i].candidates[j].id| - 1] == DigitChar(j + 1)
  {
    assert forall j :: 0 <= j < 4 ==> VotingData[0].candidates[j].id == "p" + [DigitChar(j + 1)];
    assert forall j :: 0 <= j < 4 ==> VotingData[1].candidates[j].id == "gs" + [DigitChar(j + 1)];
    assert forall j :: 0 <= j < 4 ==> VotingData[2].candidates[j].id == "vp" + [DigitChar(j + 1)];
    assert forall j :: 0 <= j < 4 ==> VotingData[3].candidates[j].id == "t" + [DigitChar(j + 1)];
  }

  /** No slug of `VOTING_DATA` is repeated. */
  lemma VotingDataDistinct()
    ensures DistinctCandidateIds(VotingData)
  {
    VotingDataSlugShape();
    assert forall a, b :: 0 <= a < b < 4 ==> "pgvt"[a] != "pgvt"[b];
  }

  /** From the empty table, the nested loops assign exactly the slugs of the posts, each its position within its post. */
  lemma PositionTable(ps: seq<MockPost>, width: nat)
    requires DistinctCandidateIds(ps)
    requires forall i :: 0 <= i < |ps| ==> |ps[i].candidates| <= width
    ensures AssignPosts(map[], ps).Keys == AllCandidateIds(ps)
    ensures forall i, j :: 0 <= i < |ps| && 0 <= j < |ps[i].candidates| ==>
              AssignPosts(map[], ps)[ps[i].candidates[j].id] == j + 1
    ensures forall k :: k in AssignPosts(map[], ps) ==> 1 <= AssignPosts(map[], ps)[k] <= width
  {
    AssignPostsSpec(map[], ps);
    var m := AssignPosts(map[], ps);
    forall k | k in m ensures 1 <= m[k] <= width {
      var i, j :| 0 <= i < |ps| && 0 <= j < |ps[i].candidates| && ps[i].candidates[j].id == k;
    }
  }

  /**
   * Every candidate of `VOTING_DATA` maps to its 1-based position within
   * its own post, so every value lies between 1 and the size of that post.
   */
  lemma CandidateIdMappingIsPosition()
    ensures CandidateIdMapping().Keys == AllCandidateIds(VotingData)
    ensures forall i, j :: 0 <= i < |VotingData| && 0 <= j < |VotingData[i].candidates| ==>
              CandidateIdMapping()[VotingData[i].candidates[j].id] == j + 1
    ensures forall k :: k in CandidateIdMapping() ==> 1 <= CandidateIdMapping()[k] <= 4
  {
    VotingDataDistinct();
    VotingDataSlugShape();
    PositionTable(VotingData, 4);
  }

  /** The mapped id forgets the post: candidates at the same position in different posts get the same integer. */
  lemma CandidateIdIgnoresPost(i: nat, i': nat, j: nat)
    requires i < |VotingData| && i' < |VotingData|
    requires j < |VotingData[i].candidates| && j < |VotingData[i'].candidates|
    ensures CandidateIdMapping()[VotingData[i].candidates[j].id]
            == CandidateIdMapping()[VotingData[i'].candidates[j].id]
  {
    CandidateIdMappingIsPosition();
  }

  // ---------------------------------------------------------------------
  // convertVotesToBackendFormat (legacy)
  // ---------------------------------------------------------------------

  /**
   * The members every object literal inherits from `Object.prototype`.
   * When `name` is not an own key of a table, `table[name]` finds one of
   * these (a function, or the prototype itself for `__proto__`), and each
   * is truthy.
   */
  const InheritedNames: set<string> := {
    "constructor", "hasOwnProperty", "isPrototypeOf", "propertyIsEnumerable",
    "toLocaleString", "toString", "valueOf", "__proto__",
    "__defineGetter__", "__defineSetter__", "__lookupGetter__", "__lookupSetter__"}

  /** What `table[key]` yields when it is not `undefined`. */
  datatype TableValue = Number(n: nat) | InheritedMember(name: string)

  /** `table[key]` on an object literal: an own key first, then the prototype chain. */
  function LookUp(table: map<string, nat>, key: string): (r: Option<TableValue>)
    ensures key in table ==> r == Some(Number(table[key]))
    ensures key !in table ==> (r.Some? <==> key in InheritedNames)
  {
    if key in table then Some(Number(table[key]))
    else if key in InheritedNames then Some(InheritedMember(key))
    else None
  }

  /** JavaScript truthiness of a lookup: `undefined` and `0` are falsy, every inherited member is truthy. */
  predicate Truthy(v: Option<TableValue>) {
    v.Some? && (v.value.InheritedMember? || v.value.n != 0)
  }

  /** A vote as the program pushes it: its ids need not be numbers. */
  datatype RawVote = RawVote(postId: TableValue, candidateId: TableValue)

  /** One step of the `forEach` as written: a vote is pushed when both lookups are truthy. */
  function MapEntryAsWritten(entry: (string, string)): Option<RawVote> {
    var post := LookUp(PostIdMapping(), entry.0);
    var candidate := LookUp(CandidateIdMapping(), entry.1);
    if Truthy(post) && Truthy(candidate) then Some(RawVote(post.value, candidate.value)) else None
  }

  /** `convertVotesToBackendFormat` as written, prototype lookups included. */
  function ConvertVotesAsWritten(selections: Entries<string>): (r: seq<RawVote>)
    ensures |r| <= |selections|
  {
    if |selections| == 0 then []
    else
      var rest := ConvertVotesAsWritten(selections[1..]);
      match MapEntryAsWritten(selections[0])
      case Some(v) => [v] + rest
      case None => rest
  }

  /** A selection naming prototype members on both sides pushes a vote whose ids are not numbers; the own-key conversion drops it. */
  lemma PrototypeNamesMakeVotes()
    ensures ConvertVotesAsWritten([("constructor", "toString")])
            == [RawVote(InheritedMember("constructor"), InheritedMember("toString"))]
    ensures ConvertVotes([("constructor", "toString")]) == []
  {
    var e := ("constructor", "toString");
    ToStringIsNoCandidate();
    assert "constructor" !in PostIdMapping();
    assert MapEntry(e) == None;
    assert MapEntryAsWritten(e) == Some(RawVote(InheritedMember("constructor"), InheritedMember("toString")));
    assert [e][1..] == [];
  }

  /** No candidate slug of the ballot is `toString`: every slug ends with a digit. */
  lemma ToStringIsNoCandidate()
    ensures "toString" !in CandidateIdMapping()
  {
    CandidateIdMappingIsPosition();
    VotingDataSlugShape();
    forall i, j | 0 <= i < |VotingData| && 0 <= j < |VotingData[i].candidates|
      ensures VotingData[i].candidates[j].id != "toString"
    {
      var id := VotingData[i].candidates[j].id;
      assert id[|id| - 1] == DigitChar(j + 1);
    }
  }

  /** An entry looked up as own keys of two tables; 0 and missing are both falsy and drop the entry. */
  function EntryVote(posts: map<string, nat>, candidates: map<string, nat>, entry: (string, string)): Option<WireVote> {
    if entry.0 in posts && entry.1 in candidates && posts[entry.0] != 0 && candidates[entry.1] != 0
    then Some(IdCodec.WireVote(posts[entry.0], candidates[entry.1]))
    else None
  }

  /** The own-key lookup of the two tables of the ballot. */
  function MapEntry(entry: (string, string)): Option<WireVote> {
    EntryVote(PostIdMapping(), CandidateIdMapping(), entry)
  }

  /** The conversion loop over any two tables: one vote per entry found in both, in entry order. */
  function ConvertVotesIn(posts: map<string, nat>, candidates: map<string, nat>, selections: Entries<string>): (r: seq<WireVote>)
    ensures |r| <= |selections|
    ensures forall v :: v in r ==> exists e :: e in selections && EntryVote(posts, candidates, e) == Some(v)
    ensures forall e :: e in selections && EntryVote(posts, candidates, e).Some? ==> EntryVote(posts, candidates, e).value in r
  {
    if |selections| == 0 then []
    else
      var rest := ConvertVotesIn(posts, candidates, selections[1..]);
      assert forall e :: e in selections[1..] ==> e in selections;
      match EntryVote(posts, candidates, selections[0])
      case Some(v) => [v] + rest
      case None => rest
  }

  /**
   * The legacy conversion with own-key lookups, as its declared numeric
   * return type intends: one vote per entry found in both tables, in
   * entry order.
   */
  function ConvertVotes(selections: Entries<string>): (r: seq<WireVote>)
    ensures |r| <= |selections|
    ensures forall v :: v in r ==> exists e :: e in selections && MapEntry(e) == Some(v)
    ensures forall e :: e in selections && MapEntry(e).Some? ==> MapEntry(e).value in r
  {
    ConvertVotesIn(PostIdMapping(), CandidateIdMapping(), selections)
  }

  /** The pushed votes whose ids are both numbers, as wire votes, in order. */
  function NumericVotes(raws: seq<RawVote>): seq<WireVote> {
    if |raws| == 0 then []
    else
      var rest := NumericVotes(raws[1..]);
      if raws[0].postId.Number? && raws[0].candidateId.Number?
      then [IdCodec.WireVote(raws[0].postId.n, raws[0].candidateId.n)] + rest
      else rest
  }

  /** One entry: the own-key lookup yields a vote exactly when the program pushes one with two numeric ids. */
  lemma MapEntryIsNumericPart(entry: (string, string))
    ensures NumericVotes(if MapEntryAsWritten(entry).Some? then [MapEntryAsWritten(entry).value] else [])
            == if MapEntry(entry).Some? then [MapEntry(entry).value] else []
  {
  }

  /** The own-key conversion keeps exactly the program's votes whose ids are both numbers, in the same order. */
  lemma {:induction false} ConvertVotesIsNumericPart(selections: Entries<string>)
    ensures ConvertVotes(selections) == NumericVotes(ConvertVotesAsWritten(selections))
    decreases |selections|
  {
    if |selections| > 0 {
      ConvertVotesIsNumericPart(selections[1..]);
      MapEntryIsNumericPart(selections[0]);
    }
  }

  /** The loop distributes over concatenation, whatever the tables. */
  lemma {:induction false} ConvertVotesInAppend(posts: map<string, nat>, candidates: map<string, nat>, a: Entries<string>, b: Entries<string>)
    ensures ConvertVotesIn(posts, candidates, a + b) == ConvertVotesIn(posts, candidates, a) + ConvertVotesIn(posts, candidates, b)
    decreases |a|
  {
    if |a| > 0 {
      assert (a + b)[0] == a[0] && (a + b)[1..] == a[1..] + b;
      ConvertVotesInAppend(posts, candidates, a[1..], b);
    } else {
      assert a + b == b;
    }
  }

  /** Conversion distributes over concatenation: votes come out in entry order, one per matching entry. */
  lemma ConvertVotesAppend(a: Entries<string>, b: Entries<string>)
    ensures ConvertVotes(a + b) == ConvertVotes(a) + ConvertVotes(b)
  {
    ConvertVotesInAppend(PostIdMapping(), CandidateIdMapping(), a, b);
  }

  /** Every emitted vote names one of the four posts and a candidate position between 1 and 4. */
  lemma ConvertVotesInRange(selections: Entries<string>)
    ensures forall v :: v in ConvertVotes(selections) ==> 1 <= v.postId <= 4 && 1 <= v.candidateId <= 4
  {
    PostIdMappingFollowsVotingData();
    CandidateIdMappingIsPosition();
    forall v | v in ConvertVotes(selections) ensures 1 <= v.postId <= 4 && 1 <= v.candidateId <= 4 {
      var e :| e in selections && MapEntry(e) == Some(v);
      assert PostIdMapping()[e.0] in PostIdMapping().Values;
    }
  }

  /** An entry whose post slug or candidate slug is not in the tables is dropped. */
  lemma ConvertVotesDropsUnknown(selections: Entries<string>, e: (string, string))
    requires e.0 !in PostIdMapping() || e.1 !in AllCandidateIds(VotingData)
    ensures ConvertVotes([e] + selections) == ConvertVotes(selections)
  {
    CandidateIdMappingIsPosition();
    assert ([e] + selections)[1..] == selections;
  }
}
