/**
 Single-use confirmations. A preview issues a signed token; executing verifies it, spends its nonce, and only
 then compares what the caller brought. The plan and the import classes are this one protocol with different
 claims, evidence and lifetime.
 */
module Confirmations {
  import opened Basics
  import opened Base64Url
  import opened Text

  const COLLECTION_TTL: nat := 600_000
  const IMPORT_TTL: nat := 900_000
  const MAX_SPENT: nat := 4096
  const MAX_LENGTH: nat := 1024
  const FUTURE_SKEW: nat := 60_000

  datatype Signed<+C> = Signed(claims: C, nonce: string, issuedAt: int)

  /**
   What differs between the two classes and between processes: the lifetime, the keyed digest, how claims are
   written and read back (`read` answers nothing for what is not well-shaped), and the last comparison.
   */
  datatype Rules<!C, !E> = Rules(
    ttl: nat,
    maxSpent: nat,
    mac: string -> seq<Byte>,
    write: Signed<C> -> seq<Byte>,
    read: seq<Byte> -> Option<Signed<C>>,
    matches: (C, E) -> bool)

  datatype Rejection = Malformed | BadSignature | Expired | AlreadyUsed | TooManyOutstanding | Mismatch

  datatype Verdict<+C> = Passed(claims: C) | Rejected(reason: Rejection)

  datatype Opened<+C> = Genuine(signed: Signed<C>) | Refused(reason: Rejection)

  type Spent = map<string, int>

  /** The part before the only dot and the part after it, neither of them empty. */
  function Halves(token: string): Option<(string, string)> {
    var dot := Find(token, '.');
    if dot == 0 || dot >= |token| - 1 || '.' in token[dot + 1..] then None
    else Some((token[..dot], token[dot + 1..]))
  }

  /** Everything that is decided before the clock and the spent nonces are looked at. */
  function Open<C, E>(rules: Rules<C, E>, token: Option<string>): Opened<C> {
    if token.None? || token.value == "" || |token.value| > MAX_LENGTH then Refused(Malformed)
    else
      match Halves(token.value)
      case None => Refused(Malformed)
      case Some((body, tail)) =>
        match Decode(tail)
        case None => Refused(Malformed)
        case Some(signature) =>
          if signature != rules.mac(body) then Refused(BadSignature)
          else
            match Decode(body)
            case None => Refused(Malformed)
            case Some(raw) =>
              match rules.read(raw)
              case None => Refused(Malformed)
              case Some(signed) => Genuine(signed)
  }

  function Unexpired(spent: Spent, now: int): Spent {
    map nonce | nonce in spent && now < spent[nonce] :: spent[nonce]
  }

  /** The verdict on one token, and the spent nonces it leaves. */
  function Judge<C, E>(rules: Rules<C, E>, spent: Spent, token: Option<string>, evidence: E, now: int): (Verdict<C>, Spent) {
    match Open(rules, token)
    case Refused(reason) => (Rejected(reason), spent)
    case Genuine(s) =>
      if s.issuedAt > now + FUTURE_SKEW || now - s.issuedAt > rules.ttl then (Rejected(Expired), spent)
      else
        var left := Unexpired(spent, now);
        if s.nonce in left then (Rejected(AlreadyUsed), left)
        else if |left| >= rules.maxSpent then (Rejected(TooManyOutstanding), left)
        else
          (if rules.matches(s.claims, evidence) then Passed(s.claims) else Rejected(Mismatch),
           left[s.nonce := s.issuedAt + rules.ttl])
  }

  function Issued<C, E>(rules: Rules<C, E>, claims: C, nonce: string, now: int): string {
    var body := Encode(rules.write(Signed(claims, nonce, now)));
    body + "." + Encode(rules.mac(body))
  }

  /** The issuer and verifier of one running process. */
  class Issuer<!C, !E> {
    const rules: Rules<C, E>
    var spent: Spent

    constructor (rules: Rules<C, E>)
      ensures this.rules == rules && spent == map[]
    {
      this.rules := rules;
      spent := map[];
    }

    /** The nonce is drawn at random; it is an argument here. */
    method Issue(claims: C, nonce: string, now: int) returns (token: string)
      ensures token == Issued(rules, claims, nonce, now)
    {
      var body := Encode(rules.write(Signed(claims, nonce, now)));
      token := body + "." + Encode(rules.mac(body));
    }

    method Prune(now: int)
      modifies `spent
      ensures spent == Unexpired(old(spent), now)
    {
      var todo := spent.Keys;
      while todo != {}
        invariant todo <= spent.Keys
        invariant forall n :: n in spent ==> n in old(spent) && spent[n] == old(spent)[n]
        invariant forall n :: n in old(spent) && n !in todo ==> (n in spent <==> now < old(spent)[n])
        decreases |todo|
      {
        var nonce :| nonce in todo;
        todo := todo - {nonce};
        if spent[nonce] <= now {
          spent := spent - {nonce};
        }
      }
    }

    method Verify(token: Option<string>, evidence: E, now: int) returns (verdict: Verdict<C>)
      modifies `spent
      ensures (verdict, spent) == Judge(rules, old(spent), token, evidence, now)
    {
      hide Open;
      var reading := Open(rules, token);
      if reading.Refused? {
        return Rejected(reading.reason);
      }
      var signed := reading.signed;
      if signed.issuedAt > now + FUTURE_SKEW || now - signed.issuedAt > rules.ttl {
        return Rejected(Expired);
      }
      Prune(now);
      if signed.nonce in spent {
        return Rejected(AlreadyUsed);
      }
      if |spent| >= rules.maxSpent {
        return Rejected(TooManyOutstanding);
      }
      spent := spent[signed.nonce := signed.issuedAt + rules.ttl];
      if !rules.matches(signed.claims, evidence) {
        return Rejected(Mismatch);
      }
      return Passed(signed.claims);
    }
  }

  // ---------------------------------------------------------------------------------------------------
  // Histories
  // ---------------------------------------------------------------------------------------------------

  datatype Attempt<+E> = Attempt(token: Option<string>, evidence: E, now: int)

  function SpentAfter<C, E>(rules: Rules<C, E>, history: seq<Attempt<E>>): Spent {
    if history == [] then map[]
    else
      var a := history[|history| - 1];
      Judge(rules, SpentAfter(rules, history[..|history| - 1]), a.token, a.evidence, a.now).1
  }

  function VerdictAt<C, E>(rules: Rules<C, E>, history: seq<Attempt<E>>, i: nat): Verdict<C>
    requires i < |history|
  {
    Judge(rules, SpentAfter(rules, history[..i]), history[i].token, history[i].evidence, history[i].now).0
  }

  ghost predicate ClockNeverRunsBack<E>(history: seq<Attempt<E>>) {
    forall i, k :: 0 <= i < k < |history| ==> history[i].now <= history[k].now
  }

  /** The token was genuine, in time and unspent: only the last comparison was left, whatever it answered. */
  predicate GotPast<C>(v: Verdict<C>) {
    v.Passed? || v == Rejected(Mismatch)
  }

  lemma Remembers<C, E>(rules: Rules<C, E>, spent: Spent, a: Attempt<E>, nonce: string)
    requires nonce in spent && a.now < spent[nonce]
    ensures
      var (v, after) := Judge(rules, spent, a.token, a.evidence, a.now);
      && nonce in after && after[nonce] == spent[nonce]
      && (GotPast(v) ==> Open(rules, a.token).signed.nonce != nonce)
  {
  }

  lemma Spends<C, E>(rules: Rules<C, E>, spent: Spent, a: Attempt<E>)
    requires GotPast(Judge(rules, spent, a.token, a.evidence, a.now).0)
    ensures Open(rules, a.token).Genuine?
    ensures
      var s, after := Open(rules, a.token).signed, Judge(rules, spent, a.token, a.evidence, a.now).1;
      s.nonce in after && after[s.nonce] == s.issuedAt + rules.ttl
  {
  }

  lemma OneMore<C, E>(rules: Rules<C, E>, history: seq<Attempt<E>>)
    requires history != []
    ensures
      var last := |history| - 1;
      SpentAfter(rules, history)
      == Judge(rules, SpentAfter(rules, history[..last]), history[last].token, history[last].evidence, history[last].now).1
  {
  }

  lemma VerdictOfPrefix<C, E>(rules: Rules<C, E>, history: seq<Attempt<E>>, n: nat, i: nat)
    requires i < n <= |history|
    ensures history[..n][i] == history[i] && VerdictAt(rules, history[..n], i) == VerdictAt(rules, history, i)
  {
    assert history[..n][..i] == history[..i];
  }

  /** A nonce once spent stays spent, with its own deadline, for as long as the clock is short of it. */
  lemma {:induction false} StaysSpent<C, E>(rules: Rules<C, E>, history: seq<Attempt<E>>, i: nat, s: Signed<C>)
    requires ClockNeverRunsBack(history) && i < |history| && GotPast(VerdictAt(rules, history, i))
    requires Open(rules, history[i].token) == Genuine(s)
    requires history[|history| - 1].now < s.issuedAt + rules.ttl
    ensures s.nonce in SpentAfter(rules, history)
    ensures SpentAfter(rules, history)[s.nonce] == s.issuedAt + rules.ttl
  {
    hide Judge, Open, GotPast, SpentAfter;
    var last := |history| - 1;
    OneMore(rules, history);
    if i == last {
      Spends(rules, SpentAfter(rules, history[..i]), history[i]);
    } else {
      hide VerdictAt;
      var before := history[..last];
      VerdictOfPrefix(rules, history, last, i);
      StaysSpent(rules, before, i, s);
      Remembers(rules, SpentAfter(rules, before), history[last], s.nonce);
    }
  }

  /**
   Single use: over every history with a clock that never runs back, once a token gets past the spent check no
   token with its nonce does again before its deadline, whatever the last comparison answered either time.
   */
  lemma SingleUse<C, E>(rules: Rules<C, E>, history: seq<Attempt<E>>, i: nat, k: nat)
    requires ClockNeverRunsBack(history) && i < k < |history|
    requires GotPast(VerdictAt(rules, history, i)) && GotPast(VerdictAt(rules, history, k))
    requires Open(rules, history[i].token).signed.nonce == Open(rules, history[k].token).signed.nonce
    ensures history[k].now >= Open(rules, history[i].token).signed.issuedAt + rules.ttl
  {
    var s := Open(rules, history[i].token).signed;
    var before := history[..k];
    if history[k].now < s.issuedAt + rules.ttl {
      VerdictOfPrefix(rules, history, k, i);
      StaysSpent(rules, before, i, s);
      Remembers(rules, SpentAfter(rules, before), history[k], s.nonce);
    }
  }

  lemma FewerKeys(small: Spent, large: Spent)
    requires small.Keys <= large.Keys
    ensures |small| <= |large|
  {
    SubsetIsNoLarger(small.Keys, large.Keys);
    assert |small| == |small.Keys| && |large| == |large.Keys|;
  }

  /** The spent nonces never outgrow their maximum. */
  lemma {:induction false} SpentIsBounded<C, E>(rules: Rules<C, E>, history: seq<Attempt<E>>)
    ensures |SpentAfter(rules, history)| <= rules.maxSpent
  {
    if history != [] {
      var a, before := history[|history| - 1], history[..|history| - 1];
      SpentIsBounded(rules, before);
      var spent := SpentAfter(rules, before);
      FewerKeys(Unexpired(spent, a.now), spent);
    }
  }

  /** Every genuine token with this nonce is the one that was issued with it. */
  ghost predicate OneIssue<C, E>(rules: Rules<C, E>, history: seq<Attempt<E>>, nonce: string, issuedAt: int) {
    forall i :: 0 <= i < |history| ==>
      match Open(rules, history[i].token)
      case Refused(_) => true
      case Genuine(s) => s.nonce == nonce ==> s.issuedAt == issuedAt
  }

  lemma {:induction false} OneDeadline<C, E>(rules: Rules<C, E>, history: seq<Attempt<E>>, nonce: string, issuedAt: int)
    requires OneIssue(rules, history, nonce, issuedAt)
    ensures
      var spent := SpentAfter(rules, history);
      nonce in spent ==> spent[nonce] == issuedAt + rules.ttl
  {
    if history != [] {
      var before := history[..|history| - 1];
      assert forall i :: 0 <= i < |before| ==> before[i] == history[i];
      OneDeadline(rules, before, nonce, issuedAt);
    }
  }

  /**
   Exactly when a token that already got past the check gets past it again: at the single instant its lifetime
   ends, when its nonce is already forgotten and it is not yet refused as old, if there is room.
   */
  lemma SecondUseExactlyAtTheDeadline<C, E>(rules: Rules<C, E>, history: seq<Attempt<E>>, i: nat, again: Attempt<E>)
    requires ClockNeverRunsBack(history + [again]) && i < |history| && GotPast(VerdictAt(rules, history, i))
    requires again.token == history[i].token
    requires
      var s := Open(rules, again.token).signed;
      OneIssue(rules, history, s.nonce, s.issuedAt)
    ensures
      var s := Open(rules, again.token).signed;
      var spent := SpentAfter(rules, history);
      GotPast(Judge(rules, spent, again.token, again.evidence, again.now).0)
      <==> again.now == s.issuedAt + rules.ttl && |Unexpired(spent, again.now)| < rules.maxSpent
  {
    var s := Open(rules, again.token).signed;
    var all := history + [again];
    var n := |history|;
    assert forall k :: 0 <= k < n ==> history[k] == all[k];
    assert history[i].now <= again.now by {
      assert all[i].now <= all[n].now;
    }
    OneDeadline(rules, history, s.nonce, s.issuedAt);
    if again.now < s.issuedAt + rules.ttl {
      assert all[n - 1].now <= all[n].now;
      StaysSpent(rules, history, i, s);
      Remembers(rules, SpentAfter(rules, history), again, s.nonce);
    }
  }

  /** So single use does fail at that one instant: the same token, verified at issue and at its deadline. */
  lemma TwiceAtTheDeadline<C, E>(rules: Rules<C, E>, token: Option<string>, evidence: E)
    requires Open(rules, token).Genuine? && rules.maxSpent > 0
    ensures
      var s := Open(rules, token).signed;
      var history := [Attempt(token, evidence, s.issuedAt), Attempt(token, evidence, s.issuedAt + rules.ttl)];
      GotPast(VerdictAt(rules, history, 0)) && GotPast(VerdictAt(rules, history, 1))
  {
    var s := Open(rules, token).signed;
    var first := Attempt(token, evidence, s.issuedAt);
    var history := [first, Attempt(token, evidence, s.issuedAt + rules.ttl)];
    assert history[..0] == [] && history[..1] == [first];
    assert [first][..0] == [];
    assert SpentAfter(rules, []) == map[];
    assert Unexpired(map[], s.issuedAt) == map[];
    assert VerdictAt(rules, history, 0) == Judge(rules, map[], token, evidence, s.issuedAt).0;
    var spent := SpentAfter(rules, [first]);
    assert spent == Judge(rules, map[], token, evidence, s.issuedAt).1;
    assert Unexpired(spent, s.issuedAt + rules.ttl) == map[];
  }

  // ---------------------------------------------------------------------------------------------------
  // Tokens
  // ---------------------------------------------------------------------------------------------------

  lemma DotSplits(body: string, tail: string)
    requires body != "" && tail != "" && '.' !in body && '.' !in tail
    ensures Halves(body + "." + tail) == Some((body, tail))
  {
    var token := body + "." + tail;
    assert token[..|body|] == body && token[|body|] == '.' && token[|body| + 1..] == tail;
    FindIs(token, '.', |body|);
  }

  /**
   What a process issues, the same process opens to exactly the claims it signed, unless the token is longer
   than any it reads: the length is not looked at when issuing.
   */
  lemma IssuedOpensExactlyWhenShort<C, E>(rules: Rules<C, E>, claims: C, nonce: string, now: int)
    requires
      var s := Signed(claims, nonce, now);
      && rules.write(s) != [] && rules.read(rules.write(s)) == Some(s)
      && rules.mac(Encode(rules.write(s))) != []
    ensures
      var s, token := Signed(claims, nonce, now), Issued(rules, claims, nonce, now);
      Open(rules, Some(token)) == if |token| <= 1024 then Genuine(s) else Refused(Malformed)
  {
    var raw := rules.write(Signed(claims, nonce, now));
    var body := Encode(raw);
    var mac := rules.mac(body);
    var tail := Encode(mac);
    DecodeInvertsEncode(raw);
    DecodeInvertsEncode(mac);
    hide Encode, Decode, Halves;
    assert '.' !in body && '.' !in tail by {
      GroupsAreInverted(raw);
      GroupsAreInverted(mac);
    }
    assert body != "" && tail != "" by {
      assert Decode("") == None by { DecodesNothing(); }
    }
    DotSplits(body, tail);
  }

  lemma DecodesNothing()
    ensures Decode("") == None
  {
  }

  /**
   The digest is taken over the body as it is spelled, so a body has one spelling; the signature is compared as
   bytes. Of the texts with the body of a token the same process opens, exactly four are opened, all of them to the
   same claims: the four spellings of its 32-byte signature.
   */
  lemma FourTextsOpenAlike<C, E>(rules: Rules<C, E>, body: string, tail: string, other: string)
    requires body != "" && tail != "" && '.' !in body && '.' !in tail
    requires |rules.mac(body)| == 32 && Open(rules, Some(body + "." + tail)).Genuine?
    ensures |Spellings(rules.mac(body))| == 4 && tail in Spellings(rules.mac(body))
    ensures other in Spellings(rules.mac(body)) ==>
      Open(rules, Some(body + "." + other)) == Open(rules, Some(body + "." + tail))
    ensures other !in Spellings(rules.mac(body)) ==> Open(rules, Some(body + "." + other)).Refused?
  {
    hide Decode, Halves, Spellings;
    var signature := rules.mac(body);
    DotSplits(body, tail);
    OtherHalves(body, other);
    FourSpellings(signature, tail);
    FourSpellings(signature, other);
    if other in Spellings(signature) {
      SpellingsLookAlike(signature, tail);
      SpellingsLookAlike(signature, other);
      DotSplits(body, other);
    }
  }

  /** Whatever follows the body, a token that splits splits there. */
  lemma OtherHalves(body: string, other: string)
    requires body != "" && '.' !in body
    ensures Halves(body + "." + other).Some? ==> Halves(body + "." + other).value == (body, other)
  {
    var token := body + "." + other;
    assert token[..|body|] == body && token[|body|] == '.' && token[|body| + 1..] == other;
    FindIs(token, '.', |body|);
  }

  lemma SpellingsLookAlike(signature: seq<Byte>, s: string)
    requires |signature| == 32 && Decode(s) == Some(signature)
    ensures |s| == 43 && '.' !in s
  {
    hide Encode, DecodeGroups;
    SpellsExactlyWhen(s, signature);
    EncodedLength(signature);
    EncodingOfTwoOver(signature);
  }

  /** When a token the process opens passes: inside its lifetime, its nonce unspent, room for it, and a match. */
  lemma PassesExactlyWhen<C, E>(rules: Rules<C, E>, spent: Spent, token: Option<string>, evidence: E, at: int)
    requires Open(rules, token).Genuine?
    ensures
      var s, left := Open(rules, token).signed, Unexpired(spent, at);
      Judge(rules, spent, token, evidence, at).0 == Passed(s.claims) <==>
        && s.issuedAt - FUTURE_SKEW <= at <= s.issuedAt + rules.ttl
        && s.nonce !in left && |left| < rules.maxSpent && rules.matches(s.claims, evidence)
  {
    hide Open;
  }
}
