/**
 The texts the two confirmation classes sign, and how long a token can get. Nothing looks at the length when a
 token is issued; the bounds on what is previewed are what keeps every token within what is read.
 */
module ConfirmationTokens {
  import opened Basics
  import opened Base64Url
  import opened CanonicalJson
  import opened Confirmations
  import Text

  const MAX_IMPORT_NAME: nat := 133
  const MAX_SOURCE: nat := 64
  const MAX_COLLECTION_NAME: nat := 64
  const MAX_IMPORT_BYTES: nat := 8_388_608
  const MAX_COUNT: nat := 100_000
  const MAX_INSTANT: nat := 8_640_000_000_000_000
  const MAC_BYTES: nat := 32

  datatype ImportClaims = ImportClaims(
    name: string, bytes: nat, contentDigest: string, snapshotDigest: string, source: string, updateExisting: bool)

  datatype CollectionClaims = CollectionClaims(
    name: string, planDigest: string, basisDigest: string, create: nat, update: nat, revoke: nat)

  /** The file as it is on disk now. */
  datatype ImportEvidence = ImportEvidence(contentDigest: string, bytes: nat)

  predicate ImportMatches(c: ImportClaims, e: ImportEvidence) {
    c.contentDigest == e.contentDigest && c.bytes == e.bytes
  }

  /** The digest the operator typed back; nothing when what was sent is no string. */
  type Echo = Option<string>

  predicate EchoMatches(c: CollectionClaims, e: Echo) {
    e.Some? && Text.IsHexOf(e.value, 64) && e.value == c.planDigest
  }

  /** A character that is written as itself between quotes and takes one byte. */
  predicate IsPlainChar(c: char) {
    ' ' <= c <= '~' && c != '"' && c != '\\'
  }

  predicate IsPlain(s: string, max: nat) {
    |s| <= max && forall i :: 0 <= i < |s| ==> IsPlainChar(s[i])
  }

  /** What the inbox and the snapshot parser let through. */
  predicate ImportBounded(c: ImportClaims) {
    && IsPlain(c.name, MAX_IMPORT_NAME) && c.bytes <= MAX_IMPORT_BYTES && IsPlain(c.source, MAX_SOURCE)
    && Text.IsHexOf(c.contentDigest, 64) && Text.IsHexOf(c.snapshotDigest, 64)
  }

  /** What the collection planner lets through. */
  predicate CollectionBounded(c: CollectionClaims) {
    && IsPlain(c.name, MAX_COLLECTION_NAME) && Text.IsHexOf(c.planDigest, 64) && Text.IsHexOf(c.basisDigest, 64)
    && c.create <= MAX_COUNT && c.update <= MAX_COUNT && c.revoke <= MAX_COUNT
  }

  /** One byte a character, for text of characters that take one. */
  function AsciiBytes(s: string): (b: seq<Byte>)
    ensures |b| == |s|
  {
    seq(|s|, i requires 0 <= i < |s| => (s[i] as int % 256) as Byte)
  }

  function Stamp(nonce: string, issuedAt: int): string {
    ",\"nonce\":" + Quote(nonce) + ",\"issuedAt\":" + IntText(issuedAt) + "}"
  }

  function ImportText(s: Signed<ImportClaims>): string {
    "{\"name\":" + Quote(s.claims.name)
    + ",\"bytes\":" + IntText(s.claims.bytes)
    + ",\"contentDigest\":" + Quote(s.claims.contentDigest)
    + ",\"snapshotDigest\":" + Quote(s.claims.snapshotDigest)
    + ",\"source\":" + Quote(s.claims.source)
    + ",\"updateExisting\":" + (if s.claims.updateExisting then "true" else "false")
    + Stamp(s.nonce, s.issuedAt)
  }

  function CollectionText(s: Signed<CollectionClaims>): string {
    "{\"name\":" + Quote(s.claims.name)
    + ",\"planDigest\":" + Quote(s.claims.planDigest)
    + ",\"basisDigest\":" + Quote(s.claims.basisDigest)
    + ",\"create\":" + IntText(s.claims.create)
    + ",\"update\":" + IntText(s.claims.update)
    + ",\"revoke\":" + IntText(s.claims.revoke)
    + Stamp(s.nonce, s.issuedAt)
  }

  // ---------------------------------------------------------------------------------------------------
  // Lengths
  // ---------------------------------------------------------------------------------------------------

  lemma {:induction false} EscapesNothing(s: string)
    requires forall i :: 0 <= i < |s| ==> IsPlainChar(s[i])
    ensures |EscapeAll(s)| == |s|
  {
    if s != [] {
      assert IsPlainChar(s[0]);
      assert |Escape(s[0])| == 1;
      EscapesNothing(s[1..]);
    }
  }

  lemma QuoteLength(s: string, max: nat)
    requires IsPlain(s, max) || Text.IsHexOf(s, max)
    ensures |Quote(s)| == |s| + 2 <= max + 2
  {
    assert forall i :: 0 <= i < |s| && Text.IsHex(s[i]) ==> IsPlainChar(s[i]);
    EscapesNothing(s);
  }

  function Power10(k: nat): nat {
    if k == 0 then 1 else 10 * Power10(k - 1)
  }

  lemma {:induction false} DecimalLength(n: nat, k: nat)
    requires k > 0 && n < Power10(k)
    ensures |Decimal(n)| <= k
  {
    if n >= 10 {
      assert k > 1;
      DecimalLength(n / 10, k - 1);
    }
  }

  lemma Powers()
    ensures Power10(6) == 1_000_000 && Power10(7) == 10_000_000 && Power10(16) == 10_000_000_000_000_000
  {
    assert Power10(3) == 1000;
    assert Power10(6) == 1000 * Power10(3);
    assert Power10(9) == 1000 * Power10(6);
    assert Power10(12) == 1000 * Power10(9);
    assert Power10(15) == 1000 * Power10(12);
  }

  lemma StampLength(nonce: string, issuedAt: int)
    requires Text.IsHexOf(nonce, 32) && 0 <= issuedAt <= MAX_INSTANT
    ensures 0 < |Stamp(nonce, issuedAt)| <= 72
  {
    QuoteLength(nonce, 32);
    Powers();
    DecimalLength(issuedAt, 16);
    hide Quote, Decimal;
  }

  lemma ImportTextLength(s: Signed<ImportClaims>)
    requires ImportBounded(s.claims) && Text.IsHexOf(s.nonce, 32) && 0 <= s.issuedAt <= MAX_INSTANT
    ensures 0 < |ImportText(s)| <= 497
  {
    QuoteLength(s.claims.name, MAX_IMPORT_NAME);
    QuoteLength(s.claims.contentDigest, 64);
    QuoteLength(s.claims.snapshotDigest, 64);
    QuoteLength(s.claims.source, MAX_SOURCE);
    StampLength(s.nonce, s.issuedAt);
    Powers();
    DecimalLength(s.claims.bytes, 7);
    hide Quote, Decimal, Stamp, IsPlain, Text.IsHexOf;
  }

  lemma CollectionTextLength(s: Signed<CollectionClaims>)
    requires CollectionBounded(s.claims) && Text.IsHexOf(s.nonce, 32) && 0 <= s.issuedAt <= MAX_INSTANT
    ensures 0 < |CollectionText(s)| <= 355
  {
    QuoteLength(s.claims.name, MAX_COLLECTION_NAME);
    QuoteLength(s.claims.planDigest, 64);
    QuoteLength(s.claims.basisDigest, 64);
    StampLength(s.nonce, s.issuedAt);
    Powers();
    DecimalLength(s.claims.create, 6);
    DecimalLength(s.claims.update, 6);
    DecimalLength(s.claims.revoke, 6);
    hide Quote, Decimal, Stamp, IsPlain, Text.IsHexOf;
  }

  /** Every token issued for what an import preview lets through opens, in the process that issued it. */
  lemma ImportTokensOpen<E>(rules: Rules<ImportClaims, E>, claims: ImportClaims, nonce: string, now: int)
    requires ImportBounded(claims) && Text.IsHexOf(nonce, 32) && 0 <= now <= MAX_INSTANT
    requires
      var s := Signed(claims, nonce, now);
      && rules.write(s) == AsciiBytes(ImportText(s)) && rules.read(rules.write(s)) == Some(s)
      && |rules.mac(Encode(rules.write(s)))| == MAC_BYTES
    ensures Open(rules, Some(Issued(rules, claims, nonce, now))) == Genuine(Signed(claims, nonce, now))
    ensures |Issued(rules, claims, nonce, now)| <= 707
  {
    ImportTextLength(Signed(claims, nonce, now));
    hide ImportText, Open;
    IssuedLength(rules, claims, nonce, now);
    IssuedOpensExactlyWhenShort(rules, claims, nonce, now);
  }

  /** Every token issued for a collection plan opens, in the process that issued it. */
  lemma CollectionTokensOpen<E>(rules: Rules<CollectionClaims, E>, claims: CollectionClaims, nonce: string, now: int)
    requires CollectionBounded(claims) && Text.IsHexOf(nonce, 32) && 0 <= now <= MAX_INSTANT
    requires
      var s := Signed(claims, nonce, now);
      && rules.write(s) == AsciiBytes(CollectionText(s)) && rules.read(rules.write(s)) == Some(s)
      && |rules.mac(Encode(rules.write(s)))| == MAC_BYTES
    ensures Open(rules, Some(Issued(rules, claims, nonce, now))) == Genuine(Signed(claims, nonce, now))
    ensures |Issued(rules, claims, nonce, now)| <= 518
  {
    CollectionTextLength(Signed(claims, nonce, now));
    hide CollectionText, Open;
    IssuedLength(rules, claims, nonce, now);
    IssuedOpensExactlyWhenShort(rules, claims, nonce, now);
  }

  /** When an issued import confirmation passes: for its fifteen minutes, once, among at most 4096 others. */
  lemma ImportTokensPass(
      rules: Rules<ImportClaims, ImportEvidence>, claims: ImportClaims, nonce: string, now: int, spent: Spent, evidence: ImportEvidence, at: int)
    requires ImportBounded(claims) && Text.IsHexOf(nonce, 32) && 0 <= now <= MAX_INSTANT
    requires
      var s := Signed(claims, nonce, now);
      && rules.write(s) == AsciiBytes(ImportText(s)) && rules.read(rules.write(s)) == Some(s)
      && |rules.mac(Encode(rules.write(s)))| == MAC_BYTES
    requires rules.ttl == IMPORT_TTL && rules.maxSpent == MAX_SPENT
    requires forall c, e :: rules.matches(c, e) == ImportMatches(c, e)
    ensures
      var left := Unexpired(spent, at);
      Judge(rules, spent, Some(Issued(rules, claims, nonce, now)), evidence, at).0 == Passed(claims) <==>
        && now - 60_000 <= at <= now + 900_000
        && nonce !in left && |left| < 4096
        && claims.contentDigest == evidence.contentDigest && claims.bytes == evidence.bytes
  {
    hide ImportText, Open, Judge, Issued;
    ImportTokensOpen(rules, claims, nonce, now);
    PassesExactlyWhen(rules, spent, Some(Issued(rules, claims, nonce, now)), evidence, at);
  }

  /** The same of a collection confirmation, for ten minutes. */
  lemma CollectionTokensPass(
      rules: Rules<CollectionClaims, Echo>, claims: CollectionClaims, nonce: string, now: int, spent: Spent, evidence: Echo, at: int)
    requires CollectionBounded(claims) && Text.IsHexOf(nonce, 32) && 0 <= now <= MAX_INSTANT
    requires
      var s := Signed(claims, nonce, now);
      && rules.write(s) == AsciiBytes(CollectionText(s)) && rules.read(rules.write(s)) == Some(s)
      && |rules.mac(Encode(rules.write(s)))| == MAC_BYTES
    requires rules.ttl == COLLECTION_TTL && rules.maxSpent == MAX_SPENT
    requires forall c, e :: rules.matches(c, e) == EchoMatches(c, e)
    ensures
      var left := Unexpired(spent, at);
      Judge(rules, spent, Some(Issued(rules, claims, nonce, now)), evidence, at).0 == Passed(claims) <==>
        && now - 60_000 <= at <= now + 600_000
        && nonce !in left && |left| < 4096
        && evidence == Some(claims.planDigest)
  {
    hide CollectionText, Open, Judge, Issued;
    CollectionTokensOpen(rules, claims, nonce, now);
    PassesExactlyWhen(rules, spent, Some(Issued(rules, claims, nonce, now)), evidence, at);
  }

  lemma IssuedLength<C, E>(rules: Rules<C, E>, claims: C, nonce: string, now: int)
    ensures
      var raw := rules.write(Signed(claims, nonce, now));
      |Issued(rules, claims, nonce, now)|
      == (4 * |raw| + 2) / 3 + 1 + (4 * |rules.mac(Encode(raw))| + 2) / 3
  {
    var raw := rules.write(Signed(claims, nonce, now));
    EncodedLength(raw);
    EncodedLength(rules.mac(Encode(raw)));
    hide Encode;
  }
}
