/** `generate_signature`: the duplicate-detection fingerprint of a message,
    a hash of `subject|date|time|body`. */
module Signature {
  import opened Base

  /** A hex digest; the hash function itself is a parameter of the model. */
  type Digest = string

  const Bar := '|'

  /** How an f-string renders a field that is a `str` or `None`. */
  function Show(o: Option<string>): string
  {
    match o
    case Some(s) => s
    case None => "None"
  }

  /** The string that is hashed: `f"{subject}|{date_str}|{time_str}|{body}"`. */
  function SignatureText(subject: string, date: Option<string>, time: Option<string>, body: string): string
  {
    subject + [Bar] + Show(date) + [Bar] + Show(time) + [Bar] + body
  }

  /** The fingerprint: a deterministic function of the text alone, so of
      subject, date, time and body alone. `hash` stands for the MD5 hex digest
      of the UTF-8 encoding, and is not assumed collision-free. */
  function Fingerprint(hash: string -> Digest, subject: string, date: Option<string>,
                       time: Option<string>, body: string): Digest
  {
    hash(SignatureText(subject, date, time, body))
  }

  predicate NoBar(s: string)
  {
    Bar !in s
  }

  /** The index of the first `|` in `t`, or `|t|` when there is none. */
  function FirstBar(t: string): (i: nat)
    ensures i <= |t|
    decreases |t|
  {
    if |t| == 0 || t[0] == Bar then 0 else 1 + FirstBar(t[1..])
  }

  lemma {:induction false} FirstBarAfterHead(a: string, x: string)
    requires NoBar(a)
    ensures FirstBar(a + [Bar] + x) == |a|
    decreases |a|
  {
    var t := a + [Bar] + x;
    if |a| > 0 {
      assert t[0] == a[0];
      assert t[1..] == a[1..] + [Bar] + x;
      FirstBarAfterHead(a[1..], x);
    } else {
      assert t[0] == Bar;
    }
  }

  /** A `|`-free head is recovered from `head + "|" + rest`. */
  lemma SplitAtBar(a: string, x: string, b: string, y: string)
    requires NoBar(a) && NoBar(b)
    requires a + [Bar] + x == b + [Bar] + y
    ensures a == b && x == y
  {
    var t := a + [Bar] + x;
    FirstBarAfterHead(a, x);
    FirstBarAfterHead(b, y);
    assert a == t[..|a|] && b == t[..|b|];
    assert x == t[|a| + 1..] && y == t[|b| + 1..];
  }

  /** The hashed text, bracketed field by field from the left. */
  lemma SignatureTextNested(subject: string, date: Option<string>, time: Option<string>, body: string)
    ensures SignatureText(subject, date, time, body)
         == subject + [Bar] + (Show(date) + [Bar] + (Show(time) + [Bar] + body))
  {
  }

  /** When subject, date and time hold no `|`, equal texts come only from
      equal fields: the hashed string identifies the four fields. */
  lemma SignatureTextInjective(s1: string, d1: Option<string>, t1: Option<string>, b1: string,
                               s2: string, d2: Option<string>, t2: Option<string>, b2: string)
    requires NoBar(s1) && NoBar(Show(d1)) && NoBar(Show(t1))
    requires NoBar(s2) && NoBar(Show(d2)) && NoBar(Show(t2))
    requires SignatureText(s1, d1, t1, b1) == SignatureText(s2, d2, t2, b2)
    ensures s1 == s2 && Show(d1) == Show(d2) && Show(t1) == Show(t2) && b1 == b2
  {
    var e1, e2, u1, u2 := Show(d1), Show(d2), Show(t1), Show(t2);
    var q1, q2 := u1 + [Bar] + b1, u2 + [Bar] + b2;
    var r1, r2 := e1 + [Bar] + q1, e2 + [Bar] + q2;
    SignatureTextNested(s1, d1, t1, b1);
    SignatureTextNested(s2, d2, t2, b2);
    SplitAtBar(s1, r1, s2, r2);
    SplitAtBar(e1, q1, e2, q2);
    SplitAtBar(u1, b1, u2, b2);
  }

  /** Without that condition the text is ambiguous: a subject holding `|`
      next to a date text gives the same string as the split that moves the
      part after the `|` into the date. */
  lemma SignatureTextAmbiguous(a: string, b: string, c: string, time: Option<string>, body: string)
    ensures SignatureText(a + [Bar] + b, Some(c), time, body) == SignatureText(a, Some(b + [Bar] + c), time, body)
  {
  }
}
