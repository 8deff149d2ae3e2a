/** One-time confirmations: a signed token binds one action, expires, and is spent once. */
module ConfirmToken {
  import opened Wrappers
  import opened Strings

  const NONCE_MEMORY: real := 60.0

  // ---- What is signed ----

  const VERSION := "navide/trust-confirm/v2"
  const NUL: char := '\0'

  predicate NulFree(s: string) { forall i :: 0 <= i < |s| ==> s[i] != NUL }

  function Joined(fields: seq<string>): string {
    if fields == [] then ""
    else if |fields| == 1 then fields[0]
    else fields[0] + [NUL] + Joined(fields[1..])
  }

  datatype Claim = Claim(nonce: string, expires: string, action: string, device: string, subject: string)
  {
    function Fields(): seq<string> { [VERSION, nonce, expires, action, device, subject] }

    function Payload(): string { Joined(Fields()) }

    predicate Clean() { NulFree(nonce) && NulFree(expires) && NulFree(action) && NulFree(device) && NulFree(subject) }
  }

  lemma FirstNul(a: string, x: string, b: string, y: string)
    requires NulFree(a) && NulFree(b) && a + [NUL] + x == b + [NUL] + y
    ensures a == b && x == y
  {
    var s := a + [NUL] + x;
    assert s[|a|] == NUL && s[|b|] == NUL;
    assert forall i :: 0 <= i < |a| ==> s[i] == a[i];
    assert forall i :: 0 <= i < |b| ==> s[i] == b[i];
    assert |a| == |b|;
    assert a == s[..|a|] && b == s[..|b|];
    assert x == s[|a| + 1..] && y == s[|b| + 1..];
  }

  lemma {:induction false} JoinedIsInjective(a: seq<string>, b: seq<string>)
    requires |a| == |b| && Joined(a) == Joined(b)
    requires forall i :: 0 <= i < |a| ==> NulFree(a[i]) && NulFree(b[i])
    ensures a == b
  {
    if |a| > 1 {
      FirstNul(a[0], Joined(a[1..]), b[0], Joined(b[1..]));
      JoinedIsInjective(a[1..], b[1..]);
      assert a == [a[0]] + a[1..] && b == [b[0]] + b[1..];
    }
  }

  /** Without the separator in any field, the signed text determines every field. */
  lemma PayloadIsInjective(c: Claim, d: Claim)
    requires c.Clean() && d.Clean() && c.Payload() == d.Payload()
    ensures c == d
  {
    JoinedIsInjective(c.Fields(), d.Fields());
    assert c.Fields()[1] == d.Fields()[1] && c.Fields()[2] == d.Fields()[2] && c.Fields()[3] == d.Fields()[3];
    assert c.Fields()[4] == d.Fields()[4] && c.Fields()[5] == d.Fields()[5];
  }

  /** With it, two different claims can share one signature. */
  lemma NulConfusesFields(nonce: string, expires: string, action: string, x: string, y: string, z: string)
    ensures Claim(nonce, expires, action, x + [NUL] + y, z).Payload() ==
      Claim(nonce, expires, action, x, y + [NUL] + z).Payload()
  {
    JoinedTail(x + [NUL] + y, z);
    JoinedTail(x, y + [NUL] + z);
    var c := Claim(nonce, expires, action, x + [NUL] + y, z).Fields();
    var d := Claim(nonce, expires, action, x, y + [NUL] + z).Fields();
    SamePrefix(c[..4], c[4..], d[4..]);
    assert c == c[..4] + c[4..] && d == c[..4] + d[4..];
  }

  lemma JoinedTail(a: string, b: string)
    ensures Joined([a, b]) == a + [NUL] + b
  {
  }

  lemma {:induction false} SamePrefix(p: seq<string>, a: seq<string>, b: seq<string>)
    requires a != [] && b != [] && Joined(a) == Joined(b)
    ensures Joined(p + a) == Joined(p + b)
  {
    if p == [] {
      assert p + a == a && p + b == b;
    } else {
      SamePrefix(p[1..], a, b);
      assert (p + a)[1..] == p[1..] + a && (p + b)[1..] == p[1..] + b;
    }
  }

  // ---- Checking ----

  /** The signature as an oracle: only the holder of the key makes one, and it
      determines the text. */
  datatype Mac = NoMac | Signature(key: string, payload: string) | Garbage(text: string)

  datatype Token = Token(nonce: string, expires: string, mac: Mac)

  datatype Verdict = Accepted | NoKey | NotAToken | Incomplete | WrongAction | NoExpiry | Expired | AlreadyUsed

  /** What is being confirmed, and when. */
  datatype Request = Request(now: real, token: Option<Token>, action: string, device: string, subject: string)

  function Remembered(spent: map<string, real>, now: real): map<string, real> {
    map n | n in spent && now - spent[n] <= NONCE_MEMORY :: spent[n]
  }

  /** `deadline` reads an expiry; None when it is not a number. */
  function Check(key: string, spent: map<string, real>, deadline: string -> Option<real>, r: Request)
    : (Verdict, map<string, real>)
  {
    if key == "" then (NoKey, spent)
    else if r.token.None? then (NotAToken, spent)
    else
      var t := r.token.value;
      if t.nonce == "" || t.expires == "" || t.mac.NoMac? then (Incomplete, spent)
      else if t.mac != Signature(key, Claim(t.nonce, t.expires, r.action, r.device, r.subject).Payload())
      then (WrongAction, spent)
      else if deadline(t.expires).None? then (NoExpiry, spent)
      else if r.now > deadline(t.expires).value then (Expired, spent)
      else if t.nonce in Remembered(spent, r.now) then (AlreadyUsed, Remembered(spent, r.now))
      else (Accepted, Remembered(spent, r.now)[t.nonce := r.now])
  }

  lemma {:induction false} JoinedFields(fields: seq<string>)
    requires |fields| > 1
    ensures Joined(fields) == fields[0] + "\0" + Joined(fields[1..])
  {
  }

  lemma JoinedOne(field: string)
    ensures Joined([field]) == field
  {
  }

  /** The signed text, spelled out. */
  lemma PayloadText(c: Claim)
    ensures c.Payload() == "navide/trust-confirm/v2" + "\0"
      + (c.nonce + "\0" + (c.expires + "\0" + (c.action + "\0" + (c.device + "\0" + c.subject))))
  {
    hide Joined;
    var f2, f3 := [c.expires, c.action, c.device, c.subject], [c.action, c.device, c.subject];
    JoinedFields(c.Fields());
    JoinedFields([c.nonce] + f2);
    JoinedFields(f2);
    JoinedFields(f3);
    JoinedFields([c.device, c.subject]);
    JoinedOne(c.subject);
    assert c.Fields()[1..] == [c.nonce] + f2 && ([c.nonce] + f2)[1..] == f2 && f2[1..] == f3;
    assert f3[1..] == [c.device, c.subject] && [c.device, c.subject][1..] == [c.subject];
  }

  /** Which answer a request gets, in the order of the checks. */
  lemma VerdictsInOrder(key: string, spent: map<string, real>, deadline: string -> Option<real>, r: Request)
    ensures var v := Check(key, spent, deadline, r).0;
      && (v == NoKey <==> key == "")
      && (v == NotAToken <==> key != "" && r.token == None)
      && (r.token.None? || key == "" || (
        var t := r.token.value;
        var complete := t.nonce != "" && t.expires != "" && t.mac != NoMac;
        var text := Claim(t.nonce, t.expires, r.action, r.device, r.subject).Payload();
        var bound := complete && t.mac == Signature(key, text);
        && (v == Incomplete <==> !complete)
        && (v == WrongAction <==> complete && !bound)
        && (v == NoExpiry <==> bound && deadline(t.expires) == None)
        && (v == Expired <==> bound && deadline(t.expires).Some? && deadline(t.expires).value < r.now)
        && (v == AlreadyUsed ==> t.nonce in spent && r.now - spent[t.nonce] <= 60.0)
        && (v == Accepted ==> t.nonce !in spent || r.now - spent[t.nonce] > 60.0)))
  {
  }

  /** An accepted token was signed for exactly this action, device and subject. */
  lemma AcceptedTokenIsBound(key: string, spent: map<string, real>, deadline: string -> Option<real>, r: Request,
                             minted: Claim)
    requires Check(key, spent, deadline, r).0.Accepted?
    requires r.token.value.mac == Signature(key, minted.Payload()) && minted.Clean()
    requires Claim(r.token.value.nonce, r.token.value.expires, r.action, r.device, r.subject).Clean()
    ensures minted == Claim(r.token.value.nonce, r.token.value.expires, r.action, r.device, r.subject)
  {
    PayloadIsInjective(minted, Claim(r.token.value.nonce, r.token.value.expires, r.action, r.device, r.subject));
  }

  // ---- Runs ----

  function Spent(key: string, deadline: string -> Option<real>, rs: seq<Request>): map<string, real> {
    if rs == [] then map[] else Check(key, Spent(key, deadline, rs[..|rs| - 1]), deadline, rs[|rs| - 1]).1
  }

  function VerdictAt(key: string, deadline: string -> Option<real>, rs: seq<Request>, i: nat): Verdict
    requires i < |rs|
  {
    Check(key, Spent(key, deadline, rs[..i]), deadline, rs[i]).0
  }

  ghost predicate Accepts(key: string, deadline: string -> Option<real>, rs: seq<Request>, i: nat, nonce: string) {
    i < |rs| && VerdictAt(key, deadline, rs, i).Accepted? && rs[i].token.value.nonce == nonce
  }

  ghost predicate ClockNeverGoesBack(rs: seq<Request>) {
    forall i, j :: 0 <= i < j < |rs| ==> rs[i].now <= rs[j].now
  }

  /** No token is presented before its nonce was minted, nor lives longer than
      `life` after that. */
  ghost predicate ShortLived(deadline: string -> Option<real>, rs: seq<Request>, mintedAt: string -> real, life: real) {
    forall i :: 0 <= i < |rs| && rs[i].token.Some? ==>
      var t := rs[i].token.value;
      && mintedAt(t.nonce) <= rs[i].now
      && (deadline(t.expires).Some? ==> deadline(t.expires).value <= mintedAt(t.nonce) + life)
  }

  /** The request gets past every check that comes before old nonces are forgotten. */
  predicate Sweeps(key: string, deadline: string -> Option<real>, r: Request) {
    && key != "" && r.token.Some?
    && var t := r.token.value;
      && t.nonce != "" && t.expires != ""
      && t.mac == Signature(key, Claim(t.nonce, t.expires, r.action, r.device, r.subject).Payload())
      && deadline(t.expires).Some? && r.now <= deadline(t.expires).value
  }

  /** By the m-th request the acceptance of the i-th has been forgotten: one in
      between swept more than the memory later by its own clock. */
  ghost predicate Forgotten(key: string, deadline: string -> Option<real>, rs: seq<Request>, i: nat, m: nat)
    requires i < |rs|
  {
    exists k :: i < k < m && k < |rs| && Sweeps(key, deadline, rs[k]) && rs[k].now - rs[i].now > 60.0
  }

  ghost predicate NoneAccepted(key: string, deadline: string -> Option<real>, rs: seq<Request>, i: nat, m: nat,
                               nonce: string)
  {
    forall k: nat :: i < k < m ==> !Accepts(key, deadline, rs, k, nonce)
  }

  /** What one check does to the memory of one nonce it does not accept. */
  lemma CheckStep(key: string, spent: map<string, real>, deadline: string -> Option<real>, r: Request, nonce: string)
    ensures var (v, after) := Check(key, spent, deadline, r);
      && (v.Accepted? <==> Sweeps(key, deadline, r) && r.token.value.nonce !in Remembered(spent, r.now))
      && (v.Accepted? && r.token.value.nonce == nonce ==> nonce in after && after[nonce] == r.now)
      && (!(v.Accepted? && r.token.value.nonce == nonce) ==>
        && (nonce in after <==> nonce in spent && (Sweeps(key, deadline, r) ==> r.now - spent[nonce] <= 60.0))
        && (nonce in after ==> after[nonce] == spent[nonce]))
  {
  }

  lemma SpentStep(key: string, deadline: string -> Option<real>, rs: seq<Request>, m: nat)
    requires m < |rs|
    ensures Spent(key, deadline, rs[..m + 1]) == Check(key, Spent(key, deadline, rs[..m]), deadline, rs[m]).1
  {
    assert rs[..m + 1][..m] == rs[..m];
  }

  /** From its acceptance on, a nonce is remembered exactly until a later request
      has it forgotten. */
  lemma {:induction false} RememberedUntilForgotten(key: string, deadline: string -> Option<real>, rs: seq<Request>,
                                                    i: nat, m: nat, nonce: string)
    requires i < m <= |rs| && Accepts(key, deadline, rs, i, nonce) && NoneAccepted(key, deadline, rs, i, m, nonce)
    ensures var spent := Spent(key, deadline, rs[..m]);
      && (nonce in spent <==> !Forgotten(key, deadline, rs, i, m))
      && (nonce in spent ==> spent[nonce] == rs[i].now)
  {
    hide Check, Sweeps, Spent;
    SpentStep(key, deadline, rs, m - 1);
    CheckStep(key, Spent(key, deadline, rs[..m - 1]), deadline, rs[m - 1], nonce);
    if i < m - 1 {
      RememberedUntilForgotten(key, deadline, rs, i, m - 1, nonce);
      assert !Accepts(key, deadline, rs, m - 1, nonce);
    }
  }

  /** When exactly a nonce is accepted again: the next request that carries it
      gets as far as the sweep, and it or one before it swept more than the
      memory after the acceptance. */
  lemma ReplayIff(key: string, deadline: string -> Option<real>, rs: seq<Request>, i: nat, j: nat, nonce: string)
    requires i < j < |rs| && Accepts(key, deadline, rs, i, nonce) && NoneAccepted(key, deadline, rs, i, j, nonce)
    requires rs[j].token.Some? && rs[j].token.value.nonce == nonce
    ensures Accepts(key, deadline, rs, j, nonce) <==>
      Sweeps(key, deadline, rs[j]) && Forgotten(key, deadline, rs, i, j + 1)
  {
    RememberedUntilForgotten(key, deadline, rs, i, j, nonce);
    CheckStep(key, Spent(key, deadline, rs[..j]), deadline, rs[j], nonce);
    hide Check, Sweeps, Spent;
  }

  ghost predicate AcceptedTwice(key: string, deadline: string -> Option<real>, rs: seq<Request>, nonce: string) {
    exists i: nat, j: nat :: i < j && Accepts(key, deadline, rs, i, nonce) && Accepts(key, deadline, rs, j, nonce)
  }

  /** Request j replays request i: it carries the same nonce, gets as far as the
      sweep, and the acceptance of i is forgotten by then. */
  ghost predicate Replays(key: string, deadline: string -> Option<real>, rs: seq<Request>, i: nat, j: nat,
                          nonce: string)
  {
    && i < j < |rs| && Carries(rs[j], nonce)
    && Sweeps(key, deadline, rs[j]) && Forgotten(key, deadline, rs, i, j + 1)
  }

  lemma {:induction false} NextAcceptance(key: string, deadline: string -> Option<real>, rs: seq<Request>,
                                          i: nat, j: nat, nonce: string)
    returns (k: nat)
    requires i < j && Accepts(key, deadline, rs, j, nonce)
    ensures i < k <= j && Accepts(key, deadline, rs, k, nonce) && NoneAccepted(key, deadline, rs, i, k, nonce)
    decreases j - i
  {
    hide Accepts;
    if n: nat :| i < n < j && Accepts(key, deadline, rs, n, nonce) {
      k := NextAcceptance(key, deadline, rs, i, n, nonce);
    } else {
      k := j;
    }
  }

  predicate Carries(r: Request, nonce: string) { r.token.Some? && r.token.value.nonce == nonce }

  /** Request i is the first that carries the nonce and gets as far as the sweep. */
  ghost predicate FirstSweep(key: string, deadline: string -> Option<real>, rs: seq<Request>, i: nat, nonce: string) {
    && i < |rs| && Carries(rs[i], nonce) && Sweeps(key, deadline, rs[i])
    && forall k :: 0 <= k < i ==> !(Carries(rs[k], nonce) && Sweeps(key, deadline, rs[k]))
  }

  lemma {:induction false} UnsweptIsUnspent(key: string, deadline: string -> Option<real>, rs: seq<Request>,
                                            nonce: string)
    requires forall k :: 0 <= k < |rs| ==> !(Carries(rs[k], nonce) && Sweeps(key, deadline, rs[k]))
    ensures nonce !in Spent(key, deadline, rs)
  {
    if rs != [] {
      var m := |rs| - 1;
      UnsweptIsUnspent(key, deadline, rs[..m], nonce);
      CheckStep(key, Spent(key, deadline, rs[..m]), deadline, rs[m], nonce);
      hide Check, Sweeps;
    }
  }

  /** The first acceptance of a nonce is its first sweep. */
  lemma FirstSweepIsAccepted(key: string, deadline: string -> Option<real>, rs: seq<Request>, i: nat, nonce: string)
    requires FirstSweep(key, deadline, rs, i, nonce)
    ensures Accepts(key, deadline, rs, i, nonce)
  {
    UnsweptIsUnspent(key, deadline, rs[..i], nonce);
    CheckStep(key, Spent(key, deadline, rs[..i]), deadline, rs[i], nonce);
  }

  lemma {:induction false} FirstSweepExists(key: string, deadline: string -> Option<real>, rs: seq<Request>, i: nat,
                                            nonce: string)
    returns (k: nat)
    requires i < |rs| && Carries(rs[i], nonce) && Sweeps(key, deadline, rs[i])
    ensures k <= i && FirstSweep(key, deadline, rs, k, nonce)
  {
    hide Carries, Sweeps;
    if n :| 0 <= n < i && Carries(rs[n], nonce) && Sweeps(key, deadline, rs[n]) {
      k := FirstSweepExists(key, deadline, rs, n, nonce);
    } else {
      k := i;
    }
  }

  /** Over any run, under any clock and for tokens of any life, a nonce is
      accepted twice if and only if some request replays the first one that
      carried it past the checks. */
  lemma AcceptedTwiceIff(key: string, deadline: string -> Option<real>, rs: seq<Request>, nonce: string)
    ensures AcceptedTwice(key, deadline, rs, nonce) <==>
      exists i: nat, j: nat :: FirstSweep(key, deadline, rs, i, nonce) && Replays(key, deadline, rs, i, j, nonce)
  {
    if i: nat, j: nat :| i < j && Accepts(key, deadline, rs, i, nonce) && Accepts(key, deadline, rs, j, nonce) {
      CheckStep(key, Spent(key, deadline, rs[..i]), deadline, rs[i], nonce);
      var first := FirstSweepExists(key, deadline, rs, i, nonce);
      FirstSweepIsAccepted(key, deadline, rs, first, nonce);
      var k := NextAcceptance(key, deadline, rs, first, j, nonce);
      ReplayIff(key, deadline, rs, first, k, nonce);
      hide Sweeps, Forgotten, Accepts, FirstSweep, Check;
      assert Replays(key, deadline, rs, first, k, nonce);
    }
    if i: nat, j: nat :| FirstSweep(key, deadline, rs, i, nonce) && Replays(key, deadline, rs, i, j, nonce) {
      FirstSweepIsAccepted(key, deadline, rs, i, nonce);
      if NoneAccepted(key, deadline, rs, i, j, nonce) {
        ReplayIff(key, deadline, rs, i, j, nonce);
      }
      hide Sweeps, Forgotten, Accepts;
    }
  }

  /** No nonce is accepted twice if the clock never goes back and no token
      outlives the memory. */
  lemma NoNonceTwice(key: string, deadline: string -> Option<real>, rs: seq<Request>, mintedAt: string -> real,
                     nonce: string)
    requires ClockNeverGoesBack(rs) && ShortLived(deadline, rs, mintedAt, 60.0)
    ensures !AcceptedTwice(key, deadline, rs, nonce)
  {
    hide Accepts;
    AcceptedTwiceIff(key, deadline, rs, nonce);
    forall i: nat, j: nat | i < j < |rs| && Carries(rs[i], nonce) && Carries(rs[j], nonce)
      ensures !Replays(key, deadline, rs, i, j, nonce)
    {
      if Sweeps(key, deadline, rs[j]) {
        SweepsInTime(key, deadline, rs[j]);
      }
      hide Sweeps;
      assert mintedAt(nonce) <= rs[i].now && forall k :: i < k <= j ==> rs[k].now <= rs[j].now;
    }
  }

  lemma SweepsInTime(key: string, deadline: string -> Option<real>, r: Request)
    requires Sweeps(key, deadline, r)
    ensures r.token.Some? && deadline(r.token.value.expires).Some? && r.now <= deadline(r.token.value.expires).value
  {
  }

  /** Tokens as the window mints them live 30 seconds. */
  lemma MintedTokensAreShortLived(deadline: string -> Option<real>, rs: seq<Request>, mintedAt: string -> real)
    requires ShortLived(deadline, rs, mintedAt, 30.0)
    ensures ShortLived(deadline, rs, mintedAt, 60.0)
  {
  }

  lemma FirstIsAccepted(key: string, deadline: string -> Option<real>, rs: seq<Request>, nonce: string)
    requires rs != [] && Sweeps(key, deadline, rs[0]) && rs[0].token.value.nonce == nonce
    ensures Accepts(key, deadline, rs, 0, nonce)
  {
    assert rs[..0] == [];
  }

  /** A token presented again is accepted as soon as it outlives the memory. */
  lemma LongTokenIsAcceptedTwice(key: string, deadline: string -> Option<real>, r: Request, later: real)
    requires Sweeps(key, deadline, r) && Sweeps(key, deadline, r.(now := later))
    ensures Accepts(key, deadline, [r, r.(now := later)], 1, r.token.value.nonce) <==> later > r.now + 60.0
  {
    var rs, nonce := [r, r.(now := later)], r.token.value.nonce;
    FirstIsAccepted(key, deadline, rs, nonce);
    ReplayIff(key, deadline, rs, 0, 1, nonce);
    hide Sweeps, Accepts;
    assert rs[1].now == later;
  }

  /** With another confirmation in between, a token within its life is accepted
      again exactly when the clock had run ahead by more than the memory. */
  lemma ClockGoingBackAllowsReplay(key: string, deadline: string -> Option<real>, r: Request, other: Request)
    requires Sweeps(key, deadline, r) && Sweeps(key, deadline, other)
    requires other.token.value.nonce != r.token.value.nonce
    ensures Accepts(key, deadline, [r, other, r], 2, r.token.value.nonce) <==> other.now > r.now + 60.0
  {
    var rs, nonce := [r, other, r], r.token.value.nonce;
    FirstIsAccepted(key, deadline, rs, nonce);
    assert rs[1] == other && rs[2] == r;
    ReplayIff(key, deadline, rs, 0, 2, nonce);
    hide Sweeps, Accepts;
  }

  // ---- The confirmation object ----

  class TrustConfirm {
    var key: string
    var spent: map<string, real>

    constructor ()
      ensures key == "" && spent == map[]
    {
      key, spent := "", map[];
    }

    /** Adopts the key the main process handed over, if there is one. */
    method SetKey(raw: string) returns (configured: bool)
      modifies this`key
      ensures configured <==> Strip(raw) != ""
      ensures key == if configured then Strip(raw) else old(key)
    {
      configured := Strip(raw) != "";
      if configured {
        key := Strip(raw);
      }
    }

    method ForgetOld(now: real)
      modifies this`spent
      ensures spent == Remembered(old(spent), now)
    {
      var nonces := Elements(spent.Keys);
      for i := 0 to |nonces|
        invariant forall n :: n in spent <==>
          n in old(spent) && (n in nonces[..i] ==> now - old(spent)[n] <= NONCE_MEMORY)
        invariant forall n :: n in spent ==> spent[n] == old(spent)[n]
      {
        var n := nonces[i];
        assert n in old(spent) && n !in nonces[..i];
        if now - spent[n] > NONCE_MEMORY {
          spent := spent - {n};
        }
      }
    }

    method CheckToken(deadline: string -> Option<real>, r: Request) returns (v: Verdict)
      modifies this`spent
      ensures (v, spent) == Check(key, old(spent), deadline, r)
    {
      if key == "" {
        return NoKey;
      }
      if r.token.None? {
        return NotAToken;
      }
      var t := r.token.value;
      if t.nonce == "" || t.expires == "" || t.mac.NoMac? {
        return Incomplete;
      }
      if t.mac != Signature(key, Claim(t.nonce, t.expires, r.action, r.device, r.subject).Payload()) {
        return WrongAction;
      }
      var limit := deadline(t.expires);
      if limit.None? {
        return NoExpiry;
      }
      if r.now > limit.value {
        return Expired;
      }
      ForgetOld(r.now);
      if t.nonce in spent {
        return AlreadyUsed;
      }
      spent := spent[t.nonce := r.now];
      v := Accepted;
    }
  }
}
