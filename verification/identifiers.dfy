/**
 * The identifier codec between the backend's numeric ids and the ballot's
 * string ids (src/lib/dataTransform.ts). A backend post `n` is shown as
 * `post-n`; its candidate `c` as `n-c`. Decoding is anchored: a string
 * that does not match `^post-(\d+)$` or `^(\d+)-(\d+)$` is rejected, and
 * a selection that does not decode is dropped from the wire votes.
 */
module IdCodec {
  import opened Common
  import opened JsRecord

  /** A candidate as the posts-with-candidates endpoint returns it. */
  datatype BackendCandidate = BackendCandidate(
    id: nat, name: string, department: Option<string>, photoUrl: Option<string>)

  /** A post as the posts-with-candidates endpoint returns it. */
  datatype BackendPost = BackendPost(
    id: nat, title: string, isActive: bool, candidates: seq<BackendCandidate>)

  /** A candidate as the ballot shows it. */
  datatype Candidate = Candidate(id: string, name: string, department: string, photoUrl: string)

  /** A post as the ballot shows it. */
  datatype Post = Post(id: string, title: string, candidates: seq<Candidate>)

  /** One `{ post_id, candidate_id }` entry of the vote request body. */
  datatype WireVote = WireVote(postId: nat, candidateId: nat)

  const PostPrefix: string := "post-"
  const NoDepartment: string := "N/A"

  // ---------------------------------------------------------------------
  // Encoding
  // ---------------------------------------------------------------------

  function EncodePostId(id: nat): string {
    PostPrefix + NatToString(id)
  }

  function EncodeCandidateId(postId: nat, candidateId: nat): string {
    NatToString(postId) + "-" + NatToString(candidateId)
  }

  function TransformCandidate(c: BackendCandidate, postId: nat): (r: Candidate)
    ensures ExtractCandidateId(r.id) == Some(c.id)
    ensures r.name == c.name
    ensures r.department != ""
    ensures c.department.Some? && c.department.value != "" ==> r.department == c.department.value
    ensures c.department.None? || c.department.value == "" ==> r.department == NoDepartment
    ensures c.photoUrl.Some? ==> r.photoUrl == c.photoUrl.value
    ensures c.photoUrl.None? ==> r.photoUrl == ""
  {
    var r := Candidate(EncodeCandidateId(postId, c.id), c.name,
                       OrElse(c.department, NoDepartment), OrElse(c.photoUrl, ""));
    CandidateIdRoundTrip(postId, c.id);
    r
  }

  function TransformPost(p: BackendPost): (r: Post)
    ensures ExtractPostId(r.id) == Some(p.id)
    ensures r.title == p.title
    ensures |r.candidates| == |p.candidates|
    ensures forall j :: 0 <= j < |p.candidates| ==>
              ExtractCandidateId(r.candidates[j].id) == Some(p.candidates[j].id)
              && r.candidates[j].name == p.candidates[j].name
  {
    PostIdRoundTrip(p.id);
    Post(EncodePostId(p.id), p.title,
         seq(|p.candidates|, j requires 0 <= j < |p.candidates| => TransformCandidate(p.candidates[j], p.id)))
  }

  /** `transformBackendData`: the active posts, transformed, in their original order. */
  function TransformBackendData(ps: seq<BackendPost>): (r: seq<Post>)
    ensures |r| <= |ps|
    ensures forall q :: q in r ==> exists p :: p in ps && p.isActive && q == TransformPost(p)
    ensures forall p :: p in ps && p.isActive ==> TransformPost(p) in r
  {
    if |ps| == 0 then []
    else if ps[0].isActive then [TransformPost(ps[0])] + TransformBackendData(ps[1..])
    else TransformBackendData(ps[1..])
  }

  // ---------------------------------------------------------------------
  // Decoding
  // ---------------------------------------------------------------------

  /** `(\d+)$` followed by `parseInt`: the whole rest must be one or more digits. */
  function ParseDigitsToEnd(s: string): (r: Option<nat>)
    ensures r.Some? <==> IsDigitString(s)
    ensures r.Some? ==> r.value == DigitsValue(s)
  {
    if IsDigitString(s) then Some(DigitsValue(s)) else None
  }

  /** `extractPostId`: the number in a string matching `^post-(\d+)$`, or nothing. */
  function ExtractPostId(s: string): (r: Option<nat>)
    ensures r.Some? <==> StartsWith(s, PostPrefix) && IsDigitString(s[|PostPrefix|..])
    ensures r.Some? ==> r.value == DigitsValue(s[|PostPrefix|..])
  {
    if StartsWith(s, PostPrefix) then ParseDigitsToEnd(s[|PostPrefix|..]) else None
  }

  /** `s` is `a-b` with `a` and `b` non-empty digit strings and the dash at `i`. */
  ghost predicate SplitsAt(s: string, i: int) {
    0 < i < |s| && s[i] == '-' && IsDigitString(s[..i]) && IsDigitString(s[i + 1..])
  }

  /** `extractCandidateId`: the second number in a string matching `^(\d+)-(\d+)$`, or nothing. */
  function ExtractCandidateId(s: string): (r: Option<nat>)
    ensures r.Some? <==> exists i :: SplitsAt(s, i)
    ensures forall i :: SplitsAt(s, i) ==> r == Some(DigitsValue(s[i + 1..]))
  {
    var n := DigitRun(s);
    assert forall i :: SplitsAt(s, i) ==> i == n;
    if 0 < n < |s| && s[n] == '-' then
      var r := ParseDigitsToEnd(s[n + 1..]);
      assert r.Some? ==> SplitsAt(s, n);
      r
    else None
  }

  /** Both halves of a selection entry decode. */
  function DecodeEntry(entry: (string, string)): (r: Option<WireVote>)
    ensures r.Some? <==> ExtractPostId(entry.0).Some? && ExtractCandidateId(entry.1).Some?
    ensures r.Some? ==> r.value.postId == ExtractPostId(entry.0).value
                        && r.value.candidateId == ExtractCandidateId(entry.1).value
  {
    match (ExtractPostId(entry.0), ExtractCandidateId(entry.1))
    case (Some(p), Some(c)) => Some(WireVote(p, c))
    case _ => None
  }

  /**
   * `convertVotesToBackendFormat`: one wire vote per selection entry whose
   * key and value both decode, in entry order; malformed entries are
   * skipped (the source logs them and carries on).
   */
  function ConvertVotes(selections: Entries<string>): (r: seq<WireVote>)
    ensures |r| <= |selections|
    ensures forall v :: v in r ==> exists e :: e in selections && DecodeEntry(e) == Some(v)
    ensures forall e :: e in selections && DecodeEntry(e).Some? ==> DecodeEntry(e).value in r
  {
    if |selections| == 0 then []
    else
      var rest := ConvertVotes(selections[1..]);
      assert forall e :: e in selections[1..] ==> e in selections;
      match DecodeEntry(selections[0])
      case Some(v) => [v] + rest
      case None => rest
  }

  // ---------------------------------------------------------------------
  // Properties
  // ---------------------------------------------------------------------

  /** Decoding `post-n` gives `n`. */
  lemma PostIdRoundTrip(n: nat)
    ensures ExtractPostId(EncodePostId(n)) == Some(n)
  {
    var s := EncodePostId(n);
    assert s[|PostPrefix|..] == NatToString(n);
    DigitsValueOfNatToString(n);
  }

  /** Decoding `p-c` gives `c`. */
  lemma CandidateIdRoundTrip(p: nat, c: nat)
    ensures ExtractCandidateId(EncodeCandidateId(p, c)) == Some(c)
  {
    var s := EncodeCandidateId(p, c);
    var i := |NatToString(p)|;
    assert s[..i] == NatToString(p);
    assert s[i + 1..] == NatToString(c);
    assert SplitsAt(s, i);
    DigitsValueOfNatToString(c);
  }

  /** The first component is checked for shape only: `a-b` and `a'-b` decode alike. */
  lemma CandidateIdIgnoresPost(a: string, a': string, b: string)
    requires IsDigitString(a) && IsDigitString(a') && IsDigitString(b)
    ensures ExtractCandidateId(a + "-" + b) == ExtractCandidateId(a' + "-" + b) == Some(DigitsValue(b))
  {
    var s, s' := a + "-" + b, a' + "-" + b;
    assert s[..|a|] == a && s[|a| + 1..] == b;
    assert s'[..|a'|] == a' && s'[|a'| + 1..] == b;
    assert SplitsAt(s, |a|) && SplitsAt(s', |a'|);
  }

  /** Strings that do not match `^post-(\d+)$` are rejected. */
  lemma ExtractPostIdFailsClosed(n: nat, suffix: string, c: char)
    requires !IsDigit(c)
    ensures ExtractPostId("") == None
    ensures ExtractPostId(PostPrefix) == None
    ensures suffix != [] && !IsDigit(suffix[0]) ==> ExtractPostId(EncodePostId(n) + suffix) == None
    ensures ExtractPostId(PostPrefix + [c] + NatToString(n)) == None
    ensures ExtractPostId(NatToString(n)) == None
  {
    var s := EncodePostId(n) + suffix;
    if suffix != [] && !IsDigit(suffix[0]) {
      assert s[|PostPrefix|..][|NatToString(n)|] == suffix[0];
    }
    var t := PostPrefix + [c] + NatToString(n);
    assert t[|PostPrefix|..][0] == c;
    var u := NatToString(n);
    assert |u| >= |PostPrefix| ==> u[0] != PostPrefix[0];
  }

  /** Strings that do not match `^(\d+)-(\d+)$` are rejected. */
  lemma ExtractCandidateIdFailsClosed(p: nat, c: nat, suffix: string)
    requires suffix != [] && !IsDigit(suffix[0])
    ensures ExtractCandidateId("") == None
    ensures ExtractCandidateId(NatToString(c)) == None
    ensures ExtractCandidateId("-" + NatToString(c)) == None
    ensures ExtractCandidateId(NatToString(p) + "-") == None
    ensures ExtractCandidateId(EncodeCandidateId(p, c) + suffix) == None
    ensures ExtractCandidateId(EncodePostId(p)) == None
  {
    var s := NatToString(c);
    DigitRunOfDigits(s, []);
    assert s + [] == s;
    NonDigitHeadRejected("-" + s);
    NonDigitHeadRejected(EncodePostId(p));
    AfterLeadingNumber(NatToString(p), "");
    assert NatToString(p) + "-" + "" == NatToString(p) + "-";
    SuffixAfterSecondNumberRejected(p, c, suffix);
  }

  /** A string that starts with anything but a digit has no leading number. */
  lemma NonDigitHeadRejected(s: string)
    requires |s| > 0 && !IsDigit(s[0])
    ensures ExtractCandidateId(s) == None
  {
  }

  /** Text after the second number makes `p-c` unreadable. */
  lemma SuffixAfterSecondNumberRejected(p: nat, c: nat, suffix: string)
    requires suffix != [] && !IsDigit(suffix[0])
    ensures ExtractCandidateId(EncodeCandidateId(p, c) + suffix) == None
  {
    var a, b := NatToString(p), NatToString(c);
    assert EncodeCandidateId(p, c) + suffix == a + "-" + (b + suffix);
    AfterLeadingNumber(a, b + suffix);
    assert (b + suffix)[|b|] == suffix[0];
  }

  /** Once a leading number and its dash are read, only the rest decides the outcome. */
  lemma AfterLeadingNumber(a: string, rest: string)
    requires IsDigitString(a)
    ensures ExtractCandidateId(a + "-" + rest) == ParseDigitsToEnd(rest)
  {
    var v := a + "-" + rest;
    assert v == a + ("-" + rest);
    DigitRunOfDigits(a, "-" + rest);
    assert v[|a|] == '-' && v[|a| + 1..] == rest;
  }

  /** Leading zeros decode to the same id, so decoding is not injective on strings. */
  lemma PostIdLeadingZero(n: nat)
    ensures ExtractPostId(PostPrefix + "0" + NatToString(n)) == Some(n)
  {
    var digits := NatToString(n);
    DigitsValueLeadingZero(digits);
    DigitsValueOfNatToString(n);
    assert (PostPrefix + "0" + digits)[|PostPrefix|..] == "0" + digits;
  }

  /** Transforming keeps the order of the active posts: it distributes over concatenation. */
  lemma {:induction false} TransformBackendDataAppend(a: seq<BackendPost>, b: seq<BackendPost>)
    ensures TransformBackendData(a + b) == TransformBackendData(a) + TransformBackendData(b)
  {
    if |a| > 0 {
      assert (a + b)[0] == a[0] && (a + b)[1..] == a[1..] + b;
      TransformBackendDataAppend(a[1..], b);
    } else {
      assert a + b == b;
    }
  }

  /** Nothing is dropped exactly when every post is active. */
  lemma {:induction false} TransformBackendDataKeepsAllActive(ps: seq<BackendPost>)
    ensures |TransformBackendData(ps)| == |ps| <==> forall i :: 0 <= i < |ps| ==> ps[i].isActive
  {
    if |ps| > 0 {
      TransformBackendDataKeepsAllActive(ps[1..]);
      assert forall i :: 1 <= i < |ps| ==> ps[i] == ps[1..][i - 1];
    }
  }

  /** Conversion keeps entry order: it distributes over concatenation. */
  lemma {:induction false} ConvertVotesAppend(a: Entries<string>, b: Entries<string>)
    ensures ConvertVotes(a + b) == ConvertVotes(a) + ConvertVotes(b)
  {
    if |a| > 0 {
      assert (a + b)[0] == a[0] && (a + b)[1..] == a[1..] + b;
      ConvertVotesAppend(a[1..], b);
    } else {
      assert a + b == b;
    }
  }

  /** A ballot over transformed posts decodes entry by entry: nothing is dropped or reordered. */
  lemma {:induction false} ConvertVotesOfWellFormed(selections: Entries<string>)
    requires forall i :: 0 <= i < |selections| ==> DecodeEntry(selections[i]).Some?
    ensures |ConvertVotes(selections)| == |selections|
    ensures forall i :: 0 <= i < |selections| ==> ConvertVotes(selections)[i] == DecodeEntry(selections[i]).value
  {
    if |selections| > 0 {
      ConvertVotesOfWellFormed(selections[1..]);
    }
  }

  /**
   * The round trip of a ballot: showing a backend post, selecting one of
   * its candidates and converting the selection gives back the post's and
   * the candidate's backend ids.
   */
  lemma SelectionRoundTrip(p: BackendPost, j: nat)
    requires j < |p.candidates|
    ensures var post := TransformPost(p);
            ConvertVotes(Put([], post.id, post.candidates[j].id))
              == [WireVote(p.id, p.candidates[j].id)]
  {
    var post := TransformPost(p);
    var sel: Entries<string> := Put([], post.id, post.candidates[j].id);
    assert sel == [(post.id, post.candidates[j].id)];
    ConvertVotesOfWellFormed(sel);
  }
}
