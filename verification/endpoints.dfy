/** Where the client connects: the submission gateway of an application, and
    the feedback service derived from it (core.rb, `Application#initialize`
    and `feedback_connection`). */
module Endpoints {

  /** The gateway hosts are `gateway` followed by these domains. */
  const SandboxDomain := ".sandbox.push.apple.com"
  const ProductionDomain := ".push.apple.com"

  /** `gateway.sandbox.push.apple.com` */
  const SandboxGateway := "gateway" + SandboxDomain

  /** `gateway.push.apple.com` */
  const ProductionGateway := "gateway" + ProductionDomain

  /** The default submission port. */
  const GatewayPort := 2195

  /** The feedback service's port, used whatever the application's port is. */
  const FeedbackPort := 2196

  /** A host and a TCP port. */
  datatype Endpoint = Endpoint(host: string, port: int)

  /** The gateway host a new application gets: sandbox or production. */
  function GatewayHost(sandbox: bool): string {
    if sandbox then SandboxGateway else ProductionGateway
  }

  /** `pat` occurs in `s` at position `i`. */
  predicate OccursAt(s: string, pat: string, i: nat) {
    i + |pat| <= |s| && s[i..i + |pat|] == pat
  }

  /** Ruby's `gsub` with a string pattern: every occurrence of `pat`, found
      scanning left to right without overlap, is replaced by `rep`. */
  function ReplaceAll(s: string, pat: string, rep: string): string
    requires |pat| > 0
    decreases |s|
  {
    if |s| == 0 then ""
    else if OccursAt(s, pat, 0) then rep + ReplaceAll(s[|pat|..], pat, rep)
    else [s[0]] + ReplaceAll(s[1..], pat, rep)
  }

  /** A string in which the pattern never occurs is left as it is. */
  lemma {:induction false} ReplaceAllAbsent(s: string, pat: string, rep: string)
    requires |pat| > 0
    requires forall i: nat :: !OccursAt(s, pat, i)
    ensures ReplaceAll(s, pat, rep) == s
    decreases |s|
  {
    if |s| > 0 {
      assert !OccursAt(s, pat, 0);
      forall i: nat
        ensures !OccursAt(s[1..], pat, i)
      {
        assert !OccursAt(s, pat, i + 1);
        if i + |pat| <= |s| - 1 {
          assert s[1..][i..i + |pat|] == s[i + 1..i + 1 + |pat|];
        }
      }
      ReplaceAllAbsent(s[1..], pat, rep);
      assert [s[0]] + s[1..] == s;
    }
  }

  /** If the replacement does not start with a character of the pattern, a
      prefix of the result free of that character was copied from the input. */
  lemma {:induction false} CopiedPrefix(t: string, pat: string, rep: string, q: string)
    requires |pat| > 0 && |rep| > 0
    requires rep[0] !in q
    requires |q| <= |ReplaceAll(t, pat, rep)|
    requires ReplaceAll(t, pat, rep)[..|q|] == q
    ensures |q| <= |t| && t[..|q|] == q
    decreases |t|
  {
    if |q| > 0 && |t| > 0 {
      var r := ReplaceAll(t, pat, rep);
      assert r[0] == q[0] && q[0] != rep[0];
      if OccursAt(t, pat, 0) {
        assert false;
      } else {
        var r' := ReplaceAll(t[1..], pat, rep);
        assert r == [t[0]] + r';
        assert r'[..|q| - 1] == q[1..];
        CopiedPrefix(t[1..], pat, rep, q[1..]);
        assert t[..|q|] == [t[0]] + t[1..][..|q| - 1];
      }
    }
  }

  /** Every occurrence is replaced: when the pattern and the replacement share
      no first characters, the pattern no longer occurs in the result. */
  lemma {:induction false} ReplaceAllComplete(s: string, pat: string, rep: string)
    requires |pat| > 0 && |rep| > 0
    requires pat[0] !in rep && rep[0] !in pat
    ensures forall i: nat :: !OccursAt(ReplaceAll(s, pat, rep), pat, i)
    decreases |s|
  {
    var r := ReplaceAll(s, pat, rep);
    if |s| > 0 {
      if OccursAt(s, pat, 0) {
        var tail := ReplaceAll(s[|pat|..], pat, rep);
        ReplaceAllComplete(s[|pat|..], pat, rep);
        forall i: nat
          ensures !OccursAt(r, pat, i)
        {
          if i < |rep| {
            assert r[i] == rep[i] && rep[i] != pat[0];
          } else if i + |pat| <= |r| {
            assert r[i..i + |pat|] == tail[i - |rep|..i - |rep| + |pat|];
            assert !OccursAt(tail, pat, i - |rep|);
          }
        }
      } else {
        var tail := ReplaceAll(s[1..], pat, rep);
        ReplaceAllComplete(s[1..], pat, rep);
        forall i: nat
          ensures !OccursAt(r, pat, i)
        {
          if i == 0 {
            if OccursAt(r, pat, 0) {
              assert tail[..|pat| - 1] == pat[1..];
              assert |pat| <= |s| ==> s[..|pat|] == [s[0]] + s[1..][..|pat| - 1];
              CopiedPrefix(s[1..], pat, rep, pat[1..]);
              assert false;
            }
          } else if i + |pat| <= |r| {
            assert r[i..i + |pat|] == tail[i - 1..i - 1 + |pat|];
            assert !OccursAt(tail, pat, i - 1);
          }
        }
      }
    }
  }

  /** Replacing back recovers the original, provided the replacement's first
      character never occurs in it. */
  lemma {:induction false} ReplaceAllInverse(s: string, pat: string, rep: string)
    requires |pat| > 0 && |rep| > 0
    requires rep[0] !in s
    ensures ReplaceAll(ReplaceAll(s, pat, rep), rep, pat) == s
    decreases |s|
  {
    if |s| > 0 {
      if OccursAt(s, pat, 0) {
        var t := ReplaceAll(s[|pat|..], pat, rep);
        assert rep[0] !in s[|pat|..] by {
          forall j | 0 <= j < |s[|pat|..]| ensures s[|pat|..][j] != rep[0] {
            assert s[|pat|..][j] == s[j + |pat|];
          }
        }
        ReplaceAllInverse(s[|pat|..], pat, rep);
        assert OccursAt(rep + t, rep, 0);
        assert (rep + t)[|rep|..] == t;
        assert s == pat + s[|pat|..];
      } else {
        var t := ReplaceAll(s[1..], pat, rep);
        assert rep[0] !in s[1..] by {
          forall j | 0 <= j < |s[1..]| ensures s[1..][j] != rep[0] {
            assert s[1..][j] == s[j + 1];
          }
        }
        ReplaceAllInverse(s[1..], pat, rep);
        assert !OccursAt([s[0]] + t, rep, 0) by {
          assert s[0] != rep[0];
        }
        assert ([s[0]] + t)[1..] == t;
        assert s == [s[0]] + s[1..];
      }
    }
  }

  /** `gsub('gateway', 'feedback')` on the application's host. */
  function FeedbackHost(host: string): string {
    ReplaceAll(host, "gateway", "feedback")
  }

  /** The endpoint `feedback_connection` dials for an application host: the
      fixed feedback port, and the host with `gateway` replaced, in which no
      `gateway` is left. */
  function FeedbackEndpoint(host: string): (e: Endpoint)
    ensures e.host == FeedbackHost(host)
    ensures e.port == FeedbackPort
    ensures forall i: nat :: !OccursAt(e.host, "gateway", i)
  {
    ReplaceAllComplete(host, "gateway", "feedback");
    Endpoint(FeedbackHost(host), FeedbackPort)
  }

  /** The substitution loses nothing for hosts without an `f`: replacing
      `feedback` back by `gateway` gives the application host again, so
      distinct such hosts have distinct feedback hosts. */
  lemma FeedbackHostInverse(host: string)
    requires 'f' !in host
    ensures ReplaceAll(FeedbackHost(host), "feedback", "gateway") == host
  {
    ReplaceAllInverse(host, "gateway", "feedback");
  }

  /** A string without `g` holds no `gateway`. */
  lemma NoGatewayWithoutG(s: string)
    requires 'g' !in s
    ensures forall i: nat :: !OccursAt(s, "gateway", i)
  {
    forall i: nat
      ensures !OccursAt(s, "gateway", i)
    {
      if i < |s| {
        assert s[i] != 'g';
      }
    }
  }

  /** `gsub` on a host made of `gateway` and a tail without `g`. */
  lemma FeedbackHostOfGatewayTail(tail: string)
    requires 'g' !in tail
    ensures FeedbackHost("gateway" + tail) == "feedback" + tail
  {
    var host := "gateway" + tail;
    assert host[..7] == "gateway";
    assert host[7..] == tail;
    NoGatewayWithoutG(tail);
    ReplaceAllAbsent(tail, "gateway", "feedback");
  }

  /** The sandbox gateway maps to the sandbox feedback host,
      `feedback.sandbox.push.apple.com`. */
  lemma FeedbackHostOfSandbox()
    ensures FeedbackHost(SandboxGateway) == "feedback" + SandboxDomain
  {
    assert 'g' !in SandboxDomain;
    FeedbackHostOfGatewayTail(SandboxDomain);
  }

  /** The production gateway maps to the production feedback host,
      `feedback.push.apple.com`. */
  lemma FeedbackHostOfProduction()
    ensures FeedbackHost(ProductionGateway) == "feedback" + ProductionDomain
  {
    assert 'g' !in ProductionDomain;
    FeedbackHostOfGatewayTail(ProductionDomain);
  }
}
