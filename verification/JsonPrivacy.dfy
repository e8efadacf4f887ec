/** What redaction of documents hides, keeps and removes. */
module JsonPrivacy {
  import opened Wrappers
  import opened Bytes
  import opened JsonKeys
  import opened JsonRedactor
  import opened JsonDocument

  /** Two values that differ only in outermost secret members, at the same places. */
  ghost predicate Agree(v: Value, w: Value, secret: bytes -> bool) {
    match (v, w)
    case (Array(es), Array(fs)) => AgreeElements(es, fs, secret)
    case (Object(ms), Object(ns)) => AgreeMembers(ms, ns, secret)
    case _ => v == w
  }

  ghost predicate AgreeElements(es: Elements, fs: Elements, secret: bytes -> bool) {
    match (es, fs)
    case (Elements(b, v, a, more), Elements(b', v', a', more')) =>
      b == b' && a == a' && Agree(v, v', secret) &&
      (match (more, more')
       case (Some(m), Some(m')) => AgreeElements(m, m', secret)
       case _ => more == more')
    case _ => es == fs
  }

  /** A pair of secret members may differ in spelling of the key, layout and value. */
  ghost predicate AgreeMembers(ms: Members, ns: Members, secret: bytes -> bool) {
    match (ms, ns)
    case (Members(b, k, p, q, v, a, more), Members(b', k', p', q', v', a', more')) =>
      b == b' && a == a' &&
      (if SecretKey(k, secret) then SecretKey(k', secret)
       else k == k' && p == p' && q == q' && Agree(v, v', secret)) &&
      (match (more, more')
       case (Some(m), Some(m')) => AgreeMembers(m, m', secret)
       case _ => more == more')
    case _ => ms == ns
  }

  lemma {:induction false} AgreeRedacts(v: Value, w: Value, secret: bytes -> bool)
    requires Agree(v, w, secret)
    ensures RedactValue(v, secret) == RedactValue(w, secret)
    decreases v
  {
    match (v, w)
    case (Array(es), Array(fs)) => AgreeElementsRedact(es, fs, secret);
    case (Object(ms), Object(ns)) => AgreeMembersRedact(ms, ns, secret);
    case _ =>
  }

  lemma {:induction false} AgreeElementsRedact(es: Elements, fs: Elements, secret: bytes -> bool)
    requires AgreeElements(es, fs, secret)
    ensures RedactElements(es, secret) == RedactElements(fs, secret)
    decreases es
  {
    if es.Elements? && fs.Elements? {
      AgreeRedacts(es.value, fs.value, secret);
      if es.more.Some? && fs.more.Some? {
        AgreeElementsRedact(es.more.value, fs.more.value, secret);
      }
    }
  }

  lemma {:induction false} AgreeMembersRedact(ms: Members, ns: Members, secret: bytes -> bool)
    requires AgreeMembers(ms, ns, secret)
    ensures RedactMembers(ms, secret) == RedactMembers(ns, secret)
    decreases ms
  {
    if ms.Members? && ns.Members? {
      if !SecretKey(ms.key, secret) {
        AgreeRedacts(ms.value, ns.value, secret);
      }
      if ms.more.Some? && ns.more.Some? {
        AgreeMembersRedact(ms.more.value, ns.more.value, secret);
      }
    }
  }

  /** Nothing about a secret member can be read from the output. */
  lemma SecretsDoNotInterfere(d: Document, e: Document, secret: bytes -> bool)
    requires ValidDocument(d) && ValidDocument(e)
    requires d.before == e.before && d.after == e.after && Agree(d.value, e.value, secret)
    ensures Redact(PrintDocument(d), secret) == Redact(PrintDocument(e), secret)
  {
    RedactsDocument(d, secret);
    RedactsDocument(e, secret);
    AgreeRedacts(d.value, e.value, secret);
  }

  predicate Clean(v: Value, secret: bytes -> bool) {
    match v
    case Text(_) => true
    case Literal(_) => true
    case Number(_) => true
    case Array(es) => CleanElements(es, secret)
    case Object(ms) => CleanMembers(ms, secret)
  }

  predicate CleanElements(es: Elements, secret: bytes -> bool) {
    match es
    case NoElements(_) => true
    case Elements(_, value, _, more) =>
      Clean(value, secret) && match more case None => true case Some(m) => CleanElements(m, secret)
  }

  predicate CleanMembers(ms: Members, secret: bytes -> bool) {
    match ms
    case NoMembers(_) => true
    case Members(_, key, _, _, value, _, more) =>
      !SecretKey(key, secret) && Clean(value, secret) &&
      match more case None => true case Some(m) => CleanMembers(m, secret)
  }

  lemma CredentialIsText()
    ensures StringText(CREDENTIAL) && StringText(REDACTED)
    ensures DecodeKey(CREDENTIAL) == Some(CREDENTIAL)
  {
    DecodesPlain(CREDENTIAL);
    PlainText(CREDENTIAL);
    PlainText(REDACTED);
  }

  lemma {:induction false} PlainText(s: bytes)
    requires forall b :: b in s ==> b >= 0x20 && b != QUOTE && b != BACKSLASH
    ensures StringText(s)
  {
    if s != [] {
      assert s[0] in s && forall b :: b in s[1..] ==> b in s;
      PlainText(s[1..]);
    }
  }

  lemma {:induction false} RedactedValueIsClean(v: Value, secret: bytes -> bool)
    requires ValidValue(v) && !secret(CREDENTIAL)
    ensures ValidValue(RedactValue(v, secret)) && Clean(RedactValue(v, secret), secret)
    ensures Clean(v, secret) ==> RedactValue(v, secret) == v
    decreases v
  {
    match v
    case Array(es) => RedactedElementsAreClean(es, secret);
    case Object(ms) => RedactedMembersAreClean(ms, secret);
    case _ =>
  }

  lemma {:induction false} RedactedElementsAreClean(es: Elements, secret: bytes -> bool)
    requires ValidElements(es) && !secret(CREDENTIAL)
    ensures ValidElements(RedactElements(es, secret)) && CleanElements(RedactElements(es, secret), secret)
    ensures CleanElements(es, secret) ==> RedactElements(es, secret) == es
    decreases es
  {
    if es.Elements? {
      RedactedValueIsClean(es.value, secret);
      if es.more.Some? {
        RedactedElementsAreClean(es.more.value, secret);
      }
    }
  }

  lemma {:induction false} RedactedMembersAreClean(ms: Members, secret: bytes -> bool)
    requires ValidMembers(ms) && !secret(CREDENTIAL)
    ensures ValidMembers(RedactMembers(ms, secret)) && CleanMembers(RedactMembers(ms, secret), secret)
    ensures CleanMembers(ms, secret) ==> RedactMembers(ms, secret) == ms
    decreases ms
  {
    if ms.Members? {
      CredentialIsText();
      RedactedValueIsClean(ms.value, secret);
      if ms.more.Some? {
        RedactedMembersAreClean(ms.more.value, secret);
      }
    }
  }

  /** The output is again a document, no member of it is secret, and a clean document is kept. */
  lemma RedactedDocumentIsClean(d: Document, secret: bytes -> bool)
    requires ValidDocument(d) && !secret(CREDENTIAL)
    ensures var r := RedactDocument(d, secret);
      && ValidDocument(r) && Clean(r.value, secret)
      && Redact(PrintDocument(d), secret) == PrintDocument(r)
      && (Clean(d.value, secret) ==> Redact(PrintDocument(d), secret) == PrintDocument(d))
  {
    RedactsDocument(d, secret);
    RedactedValueIsClean(d.value, secret);
  }
}
