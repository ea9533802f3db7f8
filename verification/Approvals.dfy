/** `GetApprovals`: all reviews of a pull request, stably sorted by time and replayed into an approver and
    a blocker set. */
module Approvals {
  import opened Options

  // A review whose user is gone has no login.
  datatype Review = Review(login: Option<string>, state: string, time: int)

  predicate Decisive(r: Review) {
    r.login.Some? && (r.state == "APPROVED" || r.state == "CHANGES_REQUESTED" || r.state == "DISMISSED")
  }

  // ----- the stable sort

  function InsertByTime(r: Review, rs: seq<Review>): seq<Review> {
    if rs == [] || r.time <= rs[0].time then [r] + rs else [rs[0]] + InsertByTime(r, rs[1..])
  }

  function SortByTime(rs: seq<Review>): seq<Review> {
    if rs == [] then [] else InsertByTime(rs[0], SortByTime(rs[1..]))
  }

  ghost predicate TimeOrdered(rs: seq<Review>) {
    forall i, j :: 0 <= i < j < |rs| ==> rs[i].time <= rs[j].time
  }

  lemma {:induction false} InsertByTimeMembers(r: Review, rs: seq<Review>)
    ensures multiset(InsertByTime(r, rs)) == multiset{r} + multiset(rs)
  {
    if rs != [] && r.time > rs[0].time {
      InsertByTimeMembers(r, rs[1..]);
      assert rs == [rs[0]] + rs[1..];
    }
  }

  lemma {:induction false} InsertByTimeSorts(r: Review, rs: seq<Review>)
    requires TimeOrdered(rs)
    ensures TimeOrdered(InsertByTime(r, rs))
    ensures forall q :: q in InsertByTime(r, rs) ==> q == r || q in rs
  {
    if rs != [] && r.time > rs[0].time {
      InsertByTimeSorts(r, rs[1..]);
      var sorted := InsertByTime(r, rs[1..]);
      assert forall i :: 0 <= i < |sorted| ==> sorted[i] in sorted;
    }
  }

  lemma {:induction false} SortByTimeMembers(rs: seq<Review>)
    ensures multiset(SortByTime(rs)) == multiset(rs)
  {
    if rs != [] {
      SortByTimeMembers(rs[1..]);
      InsertByTimeMembers(rs[0], SortByTime(rs[1..]));
      assert rs == [rs[0]] + rs[1..];
    }
  }

  lemma {:induction false} SortByTimeSorts(rs: seq<Review>)
    ensures TimeOrdered(SortByTime(rs))
  {
    if rs != [] {
      SortByTimeSorts(rs[1..]);
      InsertByTimeSorts(rs[0], SortByTime(rs[1..]));
    }
  }

  // ----- the replay

  datatype Sets = Sets(approvers: set<string>, blockers: set<string>)

  function Replay(rs: seq<Review>): Sets {
    if rs == [] then Sets({}, {})
    else
      var s, r := Replay(rs[..|rs| - 1]), rs[|rs| - 1];
      if r.login.None? then s
      else if r.state == "APPROVED" then Sets(s.approvers + {r.login.value}, s.blockers - {r.login.value})
      else if r.state == "CHANGES_REQUESTED" then Sets(s.approvers - {r.login.value}, s.blockers + {r.login.value})
      else if r.state == "DISMISSED" then Sets(s.approvers - {r.login.value}, s.blockers - {r.login.value})
      else s
  }

  /** The pages as fetched, `None` for a request that failed, which ends the call with an error; then the people
      asked to review again, `None` when that request failed, which is ignored. */
  method GetApprovals(pages: seq<Option<seq<Review>>>, requested: Option<seq<string>>) returns (result: Option<Sets>)
    ensures result == None <==> None in pages
    ensures result.Some? ==> forall login ::
              && (login in result.value.approvers <==>
                    !(requested.Some? && login in requested.value) &&
                    exists k :: Decides(Joined(pages), login, k) && Joined(pages)[k].state == "APPROVED")
              && (login in result.value.blockers <==>
                    !(requested.Some? && login in requested.value) &&
                    exists k :: Decides(Joined(pages), login, k) && Joined(pages)[k].state == "CHANGES_REQUESTED")
    ensures result.Some? ==> result.value == Decided(Joined(pages), requested)
  {
    var reviewsAll: seq<Review> := [];
    for i := 0 to |pages|
      invariant None !in pages[..i] && reviewsAll == Joined(pages[..i])
    {
      assert pages[..i + 1][..i] == pages[..i];
      if pages[i] == None {
        return None;
      }
      reviewsAll := reviewsAll + pages[i].value;
    }
    assert pages[..|pages|] == pages;
    reviewsAll := SortByTime(reviewsAll);
    var approverSet: set<string>, blockerSet: set<string> := {}, {};
    for i := 0 to |reviewsAll|
      invariant Sets(approverSet, blockerSet) == Replay(reviewsAll[..i])
    {
      assert reviewsAll[..i + 1][..i] == reviewsAll[..i];
      var review := reviewsAll[i];
      if review.login == None {
        continue;
      }
      var login := review.login.value;
      if review.state == "APPROVED" {
        approverSet, blockerSet := approverSet + {login}, blockerSet - {login};
      } else if review.state == "CHANGES_REQUESTED" {
        approverSet, blockerSet := approverSet - {login}, blockerSet + {login};
      } else if review.state == "DISMISSED" {
        approverSet, blockerSet := approverSet - {login}, blockerSet - {login};
      }
    }
    assert reviewsAll[..|reviewsAll|] == reviewsAll;
    ghost var replayed := Sets(approverSet, blockerSet);
    if requested.Some? {
      for i := 0 to |requested.value|
        invariant approverSet == replayed.approvers - (set l | l in requested.value[..i])
        invariant blockerSet == replayed.blockers - (set l | l in requested.value[..i])
      {
        assert requested.value[..i + 1] == requested.value[..i] + [requested.value[i]];
        approverSet, blockerSet := approverSet - {requested.value[i]}, blockerSet - {requested.value[i]};
      }
      assert requested.value[..|requested.value|] == requested.value;
    }
    forall login
      ensures (login in replayed.approvers <==>
               exists k :: Decides(Joined(pages), login, k) && Joined(pages)[k].state == "APPROVED")
      ensures (login in replayed.blockers <==>
               exists k :: Decides(Joined(pages), login, k) && Joined(pages)[k].state == "CHANGES_REQUESTED")
    {
      EndsInIsReplay(Joined(pages), login);
      EndsInIsDecision(Joined(pages), login, "APPROVED");
      EndsInIsDecision(Joined(pages), login, "CHANGES_REQUESTED");
    }
    return Some(Sets(approverSet, blockerSet));
  }

  function Removed(requested: Option<seq<string>>): set<string> {
    if requested.Some? then set l | l in requested.value else {}
  }

  /** The replay of the sorted reviews without the people asked again. */
  function Decided(rs: seq<Review>, requested: Option<seq<string>>): Sets {
    var s := Replay(SortByTime(rs));
    Sets(s.approvers - Removed(requested), s.blockers - Removed(requested))
  }

  /** The reviews of all pages that arrived. */
  function Joined(pages: seq<Option<seq<Review>>>): seq<Review> {
    if pages == [] then []
    else
      var last := pages[|pages| - 1];
      Joined(pages[..|pages| - 1]) + if last.Some? then last.value else []
  }

  /** Every page that arrived stands between those before it and those after it. */
  lemma {:induction false} JoinedInPageOrder(pages: seq<Option<seq<Review>>>, i: nat)
    requires i < |pages| && pages[i].Some?
    ensures Joined([]) == [] && Joined(pages) == Joined(pages[..i]) + pages[i].value + Joined(pages[i + 1..])
  {
    var n := |pages| - 1;
    if i < n {
      JoinedInPageOrder(pages[..n], i);
      assert pages[..n][..i] == pages[..i] && pages[i + 1..][..n - i - 1] == pages[..n][i + 1..];
    }
  }

  // ----- what the sets mean

  predicate Counts(r: Review, login: string) {
    Decisive(r) && r.login.value == login
  }

  /** `r` is the last decisive review of `login` in the list. */
  ghost predicate LastWord(rs: seq<Review>, login: string, i: int) {
    && 0 <= i < |rs| && Counts(rs[i], login)
    && forall j :: i < j < |rs| ==> !Counts(rs[j], login)
  }

  /** Somebody is an approver (a blocker) exactly when their last decisive review approves (requests changes). */
  lemma {:induction false} ReplayIsLastWord(rs: seq<Review>, login: string)
    ensures login in Replay(rs).approvers <==> exists i :: LastWord(rs, login, i) && rs[i].state == "APPROVED"
    ensures login in Replay(rs).blockers <==> exists i :: LastWord(rs, login, i) && rs[i].state == "CHANGES_REQUESTED"
    ensures !(login in Replay(rs).approvers && login in Replay(rs).blockers)
  {
    if rs != [] {
      var n := |rs| - 1;
      var front := rs[..n];
      ReplayIsLastWord(front, login);
      if Counts(rs[n], login) {
        assert LastWord(rs, login, n);
        assert forall i :: LastWord(rs, login, i) ==> i == n;
      } else {
        assert forall i :: LastWord(rs, login, i) <==> LastWord(front, login, i);
      }
    }
  }

  /** The decisive review of `login` that none follows: none is later, and none as late arrived after it. */
  ghost predicate Decides(rs: seq<Review>, login: string, k: int) {
    && 0 <= k < |rs| && Counts(rs[k], login)
    && forall j :: 0 <= j < |rs| && Counts(rs[j], login) ==>
         rs[j].time < rs[k].time || (rs[j].time == rs[k].time && j <= k)
  }

  /** A decisive review of `login` at the latest time of any, whatever the order of the list. */
  ghost predicate Latest(rs: seq<Review>, login: string, r: Review) {
    r in rs && Counts(r, login) && forall q :: q in rs && Counts(q, login) ==> q.time <= r.time
  }

  /** The latest decisive reviews of `login` agree on whether to be in `state`. */
  ghost predicate AgreeAtLatest(rs: seq<Review>, login: string, state: string) {
    forall r, q :: Latest(rs, login, r) && Latest(rs, login, q) ==> (r.state == state <==> q.state == state)
  }

  /** The last decisive review of `login`, once sorted, is in `state`. */
  ghost predicate EndsIn(rs: seq<Review>, login: string, state: string) {
    exists i :: LastWord(SortByTime(rs), login, i) && SortByTime(rs)[i].state == state
  }

  lemma SameMembers(rs: seq<Review>, qs: seq<Review>)
    requires multiset(rs) == multiset(qs)
    ensures forall r :: r in rs <==> r in qs
  {
    forall r ensures r in rs <==> r in qs {
      assert r in rs <==> r in multiset(rs);
    }
  }

  lemma SameLatest(rs: seq<Review>, qs: seq<Review>, login: string, r: Review)
    requires multiset(rs) == multiset(qs)
    ensures Latest(rs, login, r) <==> Latest(qs, login, r)
  {
    SameMembers(rs, qs);
  }

  /** What comes last in time order is a latest review. */
  lemma LastWordIsLatest(rs: seq<Review>, login: string, i: int)
    requires LastWord(SortByTime(rs), login, i)
    ensures Latest(rs, login, SortByTime(rs)[i])
  {
    var sorted := SortByTime(rs);
    SortByTimeSorts(rs);
    SortByTimeMembers(rs);
    SameMembers(rs, sorted);
    assert sorted[i] in sorted;
    forall q | q in rs && Counts(q, login) ensures q.time <= sorted[i].time {
      var j :| 0 <= j < |sorted| && sorted[j] == q;
    }
  }

  lemma {:induction false} LastWordExists(rs: seq<Review>, login: string, r: Review) returns (i: int)
    requires r in rs && Counts(r, login)
    ensures LastWord(rs, login, i)
  {
    var n := |rs| - 1;
    if Counts(rs[n], login) {
      i := n;
    } else {
      assert r in rs[..n];
      i := LastWordExists(rs[..n], login, r);
      assert rs[..n][i] == rs[i];
    }
  }

  /** When the latest reviews agree, the answer is theirs. */
  lemma AgreementDecides(rs: seq<Review>, login: string, state: string)
    requires AgreeAtLatest(rs, login, state)
    ensures EndsIn(rs, login, state) <==> exists r :: Latest(rs, login, r) && r.state == state
  {
    if r :| Latest(rs, login, r) && r.state == state {
      SortByTimeMembers(rs);
      SameMembers(rs, SortByTime(rs));
      var i := LastWordExists(SortByTime(rs), login, r);
      LastWordIsLatest(rs, login, i);
      assert SortByTime(rs)[i].state == state;
    }
    if i :| LastWord(SortByTime(rs), login, i) && SortByTime(rs)[i].state == state {
      LastWordIsLatest(rs, login, i);
    }
  }

  // ----- the stable sort keeps a late arrival last

  lemma {:induction false} InsertKeepsLast(r: Review, rs: seq<Review>, login: string, i: int) returns (j: int)
    requires LastWord(rs, login, i) && (Counts(r, login) ==> r.time <= rs[i].time)
    ensures LastWord(InsertByTime(r, rs), login, j) && InsertByTime(r, rs)[j] == rs[i]
  {
    if r.time <= rs[0].time {
      j := i + 1;
      assert forall k :: 0 < k < |rs| + 1 ==> InsertByTime(r, rs)[k] == rs[k - 1];
    } else if i == 0 {
      j := 0;
      OnlyCountsAfter(r, rs[1..], login);
    } else {
      assert LastWord(rs[1..], login, i - 1);
      var k := InsertKeepsLast(r, rs[1..], login, i - 1);
      j := k + 1;
    }
  }

  /** Inserting a review that does not count leaves a tail without counting reviews. */
  lemma {:induction false} OnlyCountsAfter(r: Review, rs: seq<Review>, login: string)
    requires !Counts(r, login) && forall k :: 0 <= k < |rs| ==> !Counts(rs[k], login)
    ensures forall k :: 0 <= k < |InsertByTime(r, rs)| ==> !Counts(InsertByTime(r, rs)[k], login)
  {
    if rs != [] && r.time > rs[0].time { OnlyCountsAfter(r, rs[1..], login); }
  }

  /** Of the latest reviews the one that arrived last stays last. */
  lemma {:induction false} LateArrivalStaysLast(rs: seq<Review>, r: Review, login: string) returns (i: int)
    requires Counts(r, login) && forall q :: q in rs && Counts(q, login) ==> q.time <= r.time
    ensures LastWord(SortByTime(rs + [r]), login, i) && SortByTime(rs + [r])[i] == r
  {
    if rs == [] {
      i := 0;
      assert rs + [r] == [r];
    } else {
      assert (rs + [r])[1..] == rs[1..] + [r];
      var j := LateArrivalStaysLast(rs[1..], r, login);
      i := InsertKeepsLast(rs[0], SortByTime(rs[1..] + [r]), login, j);
    }
  }

  lemma {:induction false} InsertBecomesLast(r: Review, rs: seq<Review>, login: string) returns (j: int)
    requires Counts(r, login) && forall q :: q in rs && Counts(q, login) ==> q.time < r.time
    requires TimeOrdered(rs)
    ensures LastWord(InsertByTime(r, rs), login, j) && InsertByTime(r, rs)[j] == r
  {
    j := 0;
    if rs != [] && r.time > rs[0].time {
      var k := InsertBecomesLast(r, rs[1..], login);
      j := k + 1;
    } else {
      assert forall i :: 0 <= i < |rs| ==> InsertByTime(r, rs)[i + 1] == rs[i] && rs[i] in rs;
      assert forall i :: 0 <= i < |rs| ==> r.time <= rs[i].time;
    }
  }

  /** The stable sort puts the review that decides last. */
  lemma {:induction false} DecisionComesLast(rs: seq<Review>, login: string, k: int) returns (i: int)
    requires Decides(rs, login, k)
    ensures LastWord(SortByTime(rs), login, i) && SortByTime(rs)[i] == rs[k]
  {
    if k == 0 {
      var sorted := SortByTime(rs[1..]);
      SortByTimeSorts(rs[1..]);
      SortByTimeMembers(rs[1..]);
      SameMembers(rs[1..], sorted);
      i := InsertBecomesLast(rs[0], sorted, login);
    } else {
      i := DecisionComesLast(rs[1..], login, k - 1);
      i := InsertKeepsLast(rs[0], SortByTime(rs[1..]), login, i);
    }
  }

  lemma {:induction false} DecisionExists(rs: seq<Review>, login: string, r: Review) returns (k: int)
    requires r in rs && Counts(r, login)
    ensures Decides(rs, login, k)
  {
    if q :| q in rs[1..] && Counts(q, login) {
      k := DecisionExists(rs[1..], login, q);
      k := if Counts(rs[0], login) && rs[0].time > rs[k + 1].time then 0 else k + 1;
      assert forall j :: 0 < j < |rs| ==> rs[j] == rs[1..][j - 1];
    } else {
      k := 0;
      assert forall j :: 0 < j < |rs| ==> rs[j] in rs[1..];
    }
  }

  /** What stands last after sorting is the review that decides. */
  lemma EndsInIsDecision(rs: seq<Review>, login: string, state: string)
    ensures EndsIn(rs, login, state) <==> exists k :: Decides(rs, login, k) && rs[k].state == state
  {
    var sorted := SortByTime(rs);
    if i :| LastWord(sorted, login, i) {
      SortByTimeMembers(rs);
      SameMembers(rs, sorted);
      assert sorted[i] in sorted;
      var k := DecisionExists(rs, login, sorted[i]);
      var j := DecisionComesLast(rs, login, k);
      assert forall h :: Decides(rs, login, h) ==> h == k;
      assert forall h :: LastWord(sorted, login, h) ==> h == j;
    } else {
      if k :| Decides(rs, login, k) { var i := DecisionComesLast(rs, login, k); }
    }
  }

  lemma {:induction false} SortKeepsLatest(rs: seq<Review>, r: Review)
    requires forall q :: q in rs ==> q.time <= r.time
    ensures SortByTime(rs + [r]) == SortByTime(rs) + [r]
  {
    if rs != [] {
      assert (rs + [r])[1..] == rs[1..] + [r];
      SortKeepsLatest(rs[1..], r);
      InsertBefore(rs[0], SortByTime(rs[1..]), r);
    }
  }

  lemma {:induction false} InsertBefore(q: Review, rs: seq<Review>, r: Review)
    requires q.time <= r.time
    ensures InsertByTime(q, rs + [r]) == InsertByTime(q, rs) + [r]
  {
    if rs != [] && q.time > rs[0].time {
      assert (rs + [r])[1..] == rs[1..] + [r];
      InsertBefore(q, rs[1..], r);
    }
  }

  /** What one more review does that is not older than the others: an approval and a request for changes replace
      each other, a dismissal takes both back, and a comment or a review without a user changes nothing. */
  lemma NextReview(rs: seq<Review>, r: Review, login: string)
    requires forall q :: q in rs ==> q.time <= r.time
    ensures var (before, after) := (Replay(SortByTime(rs)), Replay(SortByTime(rs + [r])));
            if r.login != Some(login) then
              && (login in after.approvers <==> login in before.approvers)
              && (login in after.blockers <==> login in before.blockers)
            else
              && (login in after.approvers <==>
                    r.state == "APPROVED" ||
                    (login in before.approvers && r.state != "CHANGES_REQUESTED" && r.state != "DISMISSED"))
              && (login in after.blockers <==>
                    r.state == "CHANGES_REQUESTED" ||
                    (login in before.blockers && r.state != "APPROVED" && r.state != "DISMISSED"))
  {
    SortKeepsLatest(rs, r);
    var sorted := SortByTime(rs);
    assert (sorted + [r])[..|sorted|] == sorted;
  }

  /** Any latest review can be made to decide by arriving last. */
  lemma CanDecide(rs: seq<Review>, login: string, r: Review) returns (qs: seq<Review>)
    requires Latest(rs, login, r)
    ensures multiset(qs) == multiset(rs)
    ensures forall state :: EndsIn(qs, login, state) <==> r.state == state
  {
    var k :| 0 <= k < |rs| && rs[k] == r;
    var others := rs[..k] + rs[k + 1..];
    qs := others + [r];
    assert rs == rs[..k] + [r] + rs[k + 1..];
    forall q | q in others ensures q in rs { }
    var i := LateArrivalStaysLast(others, r, login);
    forall state ensures EndsIn(qs, login, state) <==> r.state == state {
      assert forall j :: LastWord(SortByTime(qs), login, j) ==> j == i;
    }
  }

  /** Whether the order of arrival can change the answer for `state`: exactly when the latest decisive reviews
      disagree on it. Ties before that time, and ties that agree, do no harm. */
  lemma OrderIsIrrelevantIff(rs: seq<Review>, login: string, state: string)
    ensures (forall qs :: multiset(qs) == multiset(rs) ==> (EndsIn(qs, login, state) <==> EndsIn(rs, login, state)))
            <==> AgreeAtLatest(rs, login, state)
  {
    if AgreeAtLatest(rs, login, state) {
      forall qs | multiset(qs) == multiset(rs) ensures EndsIn(qs, login, state) <==> EndsIn(rs, login, state) {
        AnswerIsLatest(rs, qs, login, state);
        AnswerIsLatest(rs, rs, login, state);
      }
    } else {
      var r, q :| Latest(rs, login, r) && Latest(rs, login, q) && r.state == state && q.state != state;
      var rLast := CanDecide(rs, login, r);
      var qLast := CanDecide(rs, login, q);
      assert EndsIn(rLast, login, state) && !EndsIn(qLast, login, state);
    }
  }

  lemma AnswerIsLatest(rs: seq<Review>, qs: seq<Review>, login: string, state: string)
    requires multiset(qs) == multiset(rs) && AgreeAtLatest(rs, login, state)
    ensures EndsIn(qs, login, state) <==> exists r :: Latest(rs, login, r) && r.state == state
  {
    forall r ensures Latest(rs, login, r) <==> Latest(qs, login, r) { SameLatest(rs, qs, login, r); }
    AgreementDecides(qs, login, state);
  }

  lemma EndsInIsReplay(rs: seq<Review>, login: string)
    ensures EndsIn(rs, login, "APPROVED") <==> login in Replay(SortByTime(rs)).approvers
    ensures EndsIn(rs, login, "CHANGES_REQUESTED") <==> login in Replay(SortByTime(rs)).blockers
  {
    ReplayIsLastWord(SortByTime(rs), login);
  }

  lemma ApproverOrderIff(rs: seq<Review>, login: string)
    ensures (forall qs :: multiset(qs) == multiset(rs) ==>
              (login in Replay(SortByTime(qs)).approvers <==> login in Replay(SortByTime(rs)).approvers))
            <==> AgreeAtLatest(rs, login, "APPROVED")
  {
    OrderIsIrrelevantIff(rs, login, "APPROVED");
    EndsInIsReplay(rs, login);
    if AgreeAtLatest(rs, login, "APPROVED") {
      forall qs | multiset(qs) == multiset(rs)
        ensures login in Replay(SortByTime(qs)).approvers <==> login in Replay(SortByTime(rs)).approvers
      {
        EndsInIsReplay(qs, login);
      }
    } else {
      var qs :| multiset(qs) == multiset(rs) && !(EndsIn(qs, login, "APPROVED") <==> EndsIn(rs, login, "APPROVED"));
      EndsInIsReplay(qs, login);
    }
  }

  lemma BlockerOrderIff(rs: seq<Review>, login: string)
    ensures (forall qs :: multiset(qs) == multiset(rs) ==>
              (login in Replay(SortByTime(qs)).blockers <==> login in Replay(SortByTime(rs)).blockers))
            <==> AgreeAtLatest(rs, login, "CHANGES_REQUESTED")
  {
    OrderIsIrrelevantIff(rs, login, "CHANGES_REQUESTED");
    EndsInIsReplay(rs, login);
    if AgreeAtLatest(rs, login, "CHANGES_REQUESTED") {
      forall qs | multiset(qs) == multiset(rs)
        ensures login in Replay(SortByTime(qs)).blockers <==> login in Replay(SortByTime(rs)).blockers
      {
        EndsInIsReplay(qs, login);
      }
    } else {
      var qs :| multiset(qs) == multiset(rs)
        && !(EndsIn(qs, login, "CHANGES_REQUESTED") <==> EndsIn(rs, login, "CHANGES_REQUESTED"));
      EndsInIsReplay(qs, login);
    }
  }

  /** Somebody is an approver (a blocker) whatever the order of reviews and pages exactly when their latest
      decisive reviews agree on it, and the answer is then "latest decisive review wins". */
  lemma OrderDoesNotMatter(rs: seq<Review>, login: string)
    ensures (forall qs :: multiset(qs) == multiset(rs) ==>
              (login in Replay(SortByTime(qs)).approvers <==> login in Replay(SortByTime(rs)).approvers))
            <==> AgreeAtLatest(rs, login, "APPROVED")
    ensures (forall qs :: multiset(qs) == multiset(rs) ==>
              (login in Replay(SortByTime(qs)).blockers <==> login in Replay(SortByTime(rs)).blockers))
            <==> AgreeAtLatest(rs, login, "CHANGES_REQUESTED")
    ensures AgreeAtLatest(rs, login, "APPROVED") ==>
              (login in Replay(SortByTime(rs)).approvers <==> exists r :: Latest(rs, login, r) && r.state == "APPROVED")
    ensures AgreeAtLatest(rs, login, "CHANGES_REQUESTED") ==>
              (login in Replay(SortByTime(rs)).blockers <==>
                exists r :: Latest(rs, login, r) && r.state == "CHANGES_REQUESTED")
  {
    ApproverOrderIff(rs, login);
    BlockerOrderIff(rs, login);
    EndsInIsReplay(rs, login);
    if AgreeAtLatest(rs, login, "APPROVED") { AgreementDecides(rs, login, "APPROVED"); }
    if AgreeAtLatest(rs, login, "CHANGES_REQUESTED") { AgreementDecides(rs, login, "CHANGES_REQUESTED"); }
  }

  /** The same for the final result: somebody asked again is in neither set whatever the order, and for everybody
      else it takes agreement at the latest time. */
  lemma ApproverResultIff(rs: seq<Review>, requested: Option<seq<string>>, login: string)
    ensures (forall qs :: multiset(qs) == multiset(rs) ==>
              (login in Decided(qs, requested).approvers <==> login in Decided(rs, requested).approvers))
            <==> login in Removed(requested) || AgreeAtLatest(rs, login, "APPROVED")
  {
    if login !in Removed(requested) {
      ApproverOrderIff(rs, login);
      if AgreeAtLatest(rs, login, "APPROVED") {
        forall qs | multiset(qs) == multiset(rs)
          ensures login in Decided(qs, requested).approvers <==> login in Decided(rs, requested).approvers
        {
          assert login in Replay(SortByTime(qs)).approvers <==> login in Replay(SortByTime(rs)).approvers;
        }
      } else {
        var qs :| multiset(qs) == multiset(rs) &&
          !(login in Replay(SortByTime(qs)).approvers <==> login in Replay(SortByTime(rs)).approvers);
        assert !(login in Decided(qs, requested).approvers <==> login in Decided(rs, requested).approvers);
      }
    }
  }

  lemma BlockerResultIff(rs: seq<Review>, requested: Option<seq<string>>, login: string)
    ensures (forall qs :: multiset(qs) == multiset(rs) ==>
              (login in Decided(qs, requested).blockers <==> login in Decided(rs, requested).blockers))
            <==> login in Removed(requested) || AgreeAtLatest(rs, login, "CHANGES_REQUESTED")
  {
    if login !in Removed(requested) {
      BlockerOrderIff(rs, login);
      if AgreeAtLatest(rs, login, "CHANGES_REQUESTED") {
        forall qs | multiset(qs) == multiset(rs)
          ensures login in Decided(qs, requested).blockers <==> login in Decided(rs, requested).blockers
        {
          assert login in Replay(SortByTime(qs)).blockers <==> login in Replay(SortByTime(rs)).blockers;
        }
      } else {
        var qs :| multiset(qs) == multiset(rs) &&
          !(login in Replay(SortByTime(qs)).blockers <==> login in Replay(SortByTime(rs)).blockers);
        assert !(login in Decided(qs, requested).blockers <==> login in Decided(rs, requested).blockers);
      }
    }
  }

  /** With times that differ there is nothing to agree on. */
  lemma DistinctTimesAgree(rs: seq<Review>, login: string, state: string)
    requires forall i, j :: 0 <= i < j < |rs| && Counts(rs[i], login) && Counts(rs[j], login) ==>
               rs[i].time != rs[j].time
    ensures AgreeAtLatest(rs, login, state)
  {
    forall r, q | Latest(rs, login, r) && Latest(rs, login, q) ensures r == q {
      var i :| 0 <= i < |rs| && rs[i] == r;
      var j :| 0 <= j < |rs| && rs[j] == q;
    }
  }

  /** With equal times the order of arrival decides. */
  lemma EqualTimesDependOnOrder()
    ensures var yes, no := Review(Some("a"), "APPROVED", 0), Review(Some("a"), "CHANGES_REQUESTED", 0);
            Replay(SortByTime([yes, no])) == Sets({}, {"a"}) && Replay(SortByTime([no, yes])) == Sets({"a"}, {})
  {
    var yes, no := Review(Some("a"), "APPROVED", 0), Review(Some("a"), "CHANGES_REQUESTED", 0);
    assert [yes, no][1..] == [no] && [no, yes][1..] == [yes];
    assert SortByTime([yes]) == [yes] && SortByTime([no]) == [no];
    assert SortByTime([yes, no]) == [yes, no] && SortByTime([no, yes]) == [no, yes];
    assert [yes, no][..1] == [yes] && [no, yes][..1] == [no];
    assert Replay([yes]) == Sets({"a"}, {}) && Replay([no]) == Sets({}, {"a"});
  }
}
