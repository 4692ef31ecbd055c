/**
 The face matcher behind biometric login (AuthController::loginBiometric and
 AuthController::euclideanDistance).

 The source compares sqrt(sum of squared differences) < 0.6 in floating
 point. Both sides are non-negative, so the model compares the sum itself
 with 0.6 * 0.6 = 0.36 in exact reals (ThresholdOnSquares shows the two
 tests agree).
 */
module Biometric {
  import opened Common
  import opened Models

  /** The match threshold on the Euclidean distance. */
  const Threshold: real := 0.6

  /** The same threshold on the squared distance. */
  const SquaredThreshold: real := 0.36

  /** Sum of squared element-wise differences of two equally long vectors:
      the square of their Euclidean distance. */
  function SquaredDistance(a: seq<real>, b: seq<real>): (d: real)
    requires |a| == |b|
    ensures d >= 0.0
    ensures a == b ==> d == 0.0
  {
    if |a| == 0 then 0.0
    else
      var diff := a[0] - b[0];
      var square := diff * diff;
      var rest := SquaredDistance(a[1..], b[1..]);
      assert a == [a[0]] + a[1..] && b == [b[0]] + b[1..];
      SquareSign(diff);
      square + rest
  }

  /** A square is non-negative, and zero only for zero. */
  lemma SquareSign(x: real)
    ensures x * x >= 0.0
    ensures x != 0.0 ==> x * x > 0.0
  {
    if x < 0.0 {
      var y := -x;
      assert y * y > 0.0;
      assert x * x == y * y;
    }
  }

  /** Comparing a non-negative distance with 0.6 is the same as comparing
      its square with 0.36. */
  lemma ThresholdOnSquares(dist: real, sum: real)
    requires dist >= 0.0 && dist * dist == sum
    ensures dist < Threshold <==> sum < SquaredThreshold
  {
    if dist < Threshold {
      assert dist * dist <= dist * Threshold;
      assert dist * Threshold < Threshold * Threshold;
    } else {
      assert dist * dist >= dist * Threshold;
      assert dist * Threshold >= Threshold * Threshold;
    }
  }

  /** A stored template takes part in the comparison only when it is
      non-empty and as long as the probe; anything else is skipped. */
  predicate Comparable(stored: seq<real>, probe: seq<real>) {
    |stored| > 0 && |stored| == |probe|
  }

  /** The user is accepted for the probe: the template is present,
      comparable, and strictly closer than the threshold. */
  predicate Accepts(u: User, probe: seq<real>) {
    match u.template
    case None => false
    case Some(t) => Comparable(t, probe) && SquaredDistance(t, probe) < SquaredThreshold
  }

  /** The users whose template column is not null, in storage order
      (User::whereNotNull('face_embedding')). */
  function Enrolled(users: seq<User>): (r: seq<User>)
    ensures |r| <= |users|
    ensures forall u :: u in r <==> u in users && u.template.Some?
  {
    if |users| == 0 then []
    else if users[0].template.Some? then [users[0]] + Enrolled(users[1..])
    else Enrolled(users[1..])
  }

  /** The scan of the login loop: the index of the FIRST accepted user in
      scan order, or None when nobody is accepted. */
  function FirstMatch(users: seq<User>, probe: seq<real>): (r: Option<nat>)
    ensures r.Some? ==> r.value < |users| && Accepts(users[r.value], probe)
    ensures r.Some? ==> forall j :: 0 <= j < r.value ==> !Accepts(users[j], probe)
    ensures r.None? <==> forall j :: 0 <= j < |users| ==> !Accepts(users[j], probe)
  {
    if |users| == 0 then None
    else if Accepts(users[0], probe) then Some(0)
    else
      match FirstMatch(users[1..], probe)
      case None => None
      case Some(k) => Some(k + 1)
  }

  /** Independent reference: the set of all accepted positions. */
  function AcceptedPositions(users: seq<User>, probe: seq<real>): set<nat> {
    set i: nat | i < |users| && Accepts(users[i], probe)
  }

  /** The scan returns exactly the least accepted position, and nothing
      when no position is accepted. */
  lemma FirstMatchIsLeastAccepted(users: seq<User>, probe: seq<real>)
    ensures FirstMatch(users, probe).None? <==> AcceptedPositions(users, probe) == {}
    ensures FirstMatch(users, probe).Some? ==>
      && FirstMatch(users, probe).value in AcceptedPositions(users, probe)
      && forall i :: i in AcceptedPositions(users, probe) ==> FirstMatch(users, probe).value <= i
  {
    var r := FirstMatch(users, probe);
    if r.None? {
      assert forall j :: 0 <= j < |users| ==> !Accepts(users[j], probe);
    } else {
      assert r.value in AcceptedPositions(users, probe);
    }
  }

  /** Scanning only the users with a non-null template finds the same user
      as scanning every user: a null template is never accepted, so the
      whereNotNull filter changes nothing but the work done. */
  lemma {:induction false} EnrolledScanAgrees(users: seq<User>, probe: seq<real>)
    ensures FirstMatch(Enrolled(users), probe).None? <==> FirstMatch(users, probe).None?
    ensures FirstMatch(users, probe).Some? ==>
      Enrolled(users)[FirstMatch(Enrolled(users), probe).value] == users[FirstMatch(users, probe).value]
  {
    if |users| == 0 {
    } else {
      EnrolledScanAgrees(users[1..], probe);
      if users[0].template.Some? {
        assert Enrolled(users) == [users[0]] + Enrolled(users[1..]);
        assert Enrolled(users)[0] == users[0];
        assert forall j :: 1 <= j < |Enrolled(users)| ==> Enrolled(users)[j] == Enrolled(users[1..])[j - 1];
      } else {
        assert Enrolled(users) == Enrolled(users[1..]);
        assert !Accepts(users[0], probe);
      }
    }
  }

  /** A template exactly at distance 0.6 from the probe is rejected: the
      comparison is strict. */
  lemma BoundaryIsRejected(u: User, probe: seq<real>)
    requires u.template.Some? && Comparable(u.template.value, probe)
    requires SquaredDistance(u.template.value, probe) == SquaredThreshold
    ensures !Accepts(u, probe)
  {
  }

  /** A probe equal to a stored non-empty template has distance zero, so its
      owner is accepted. */
  lemma SelfIsAccepted(u: User, probe: seq<real>)
    requires u.template == Some(probe) && |probe| > 0
    ensures Accepts(u, probe)
  {
    assert SquaredDistance(probe, probe) == 0.0;
  }

  /** The matcher finds a user whose template equals the probe, unless an
      earlier user is already accepted. */
  lemma SelfMatch(users: seq<User>, i: nat, probe: seq<real>)
    requires i < |users| && users[i].template == Some(probe) && |probe| > 0
    ensures FirstMatch(users, probe).Some?
    ensures FirstMatch(users, probe).value <= i
    ensures (forall j :: 0 <= j < i ==> !Accepts(users[j], probe)) ==> FirstMatch(users, probe) == Some(i)
  {
    SelfIsAccepted(users[i], probe);
  }

  /** Concrete instance: at distance exactly 0.6 the user is rejected, at
      0.59 accepted. */
  lemma ThresholdBoundaryExample()
    ensures !Accepts(User(1, "a", "a@x", "h", StudentRole, Some([0.0])), [0.6])
    ensures Accepts(User(1, "a", "a@x", "h", StudentRole, Some([0.0])), [0.59])
  {
    assert SquaredDistance([0.0], [0.6]) == 0.36 by {
      assert [0.0][1..] == [] && [0.6][1..] == [];
    }
    assert SquaredDistance([0.0], [0.59]) == 0.3481 by {
      assert [0.0][1..] == [] && [0.59][1..] == [];
    }
  }

  /** First match wins, not best match: the first user (distance 0.45) is
      chosen although the second user (distance 0.05) is closer. */
  lemma FirstMatchIsNotClosest()
    ensures
      var a := User(1, "a", "a@x", "h", StudentRole, Some([0.0]));
      var b := User(2, "b", "b@x", "h", StudentRole, Some([0.5]));
      && SquaredDistance([0.5], [0.45]) < SquaredDistance([0.0], [0.45])
      && FirstMatch([a, b], [0.45]) == Some(0)
  {
    assert [0.0][1..] == [] && [0.5][1..] == [] && [0.45][1..] == [];
    assert SquaredDistance([0.0], [0.45]) == 0.2025;
    assert SquaredDistance([0.5], [0.45]) == 0.0025;
  }
}
