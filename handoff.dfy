/** The `mailto:` link the Schedule button hands to the mail client. The email address and
    the volunteer's name are spliced into a fixed template without any escaping. */
module Handoff {

  const SCHEME: string := "mailto:"

  /** The query after the address, up to where the name goes. */
  const QUERY: string := "subject=NVIDIA%20Insider%20Chat%20Request&body=Hello%20"

  /** The body text after the comma that follows the name. */
  const LETTER: string := "%0A%0AI%20would%20like%20to%20schedule%20you%20for%20an%20insider%20chat.%0A%0ABest%20regards,"

  /** Everything in front of the name: scheme, address, `?`, subject and the start of
      the body. */
  function Head(email: string): string
  {
    SCHEME + email + "?" + QUERY
  }

  /** `outlook_url` for a card's email and name. */
  function MailtoUrl(email: string, name: string): (url: string)
    ensures |url| == |SCHEME| + |email| + 1 + |QUERY| + |name| + 1 + |LETTER|
  {
    Head(email) + name + "," + LETTER
  }

  /** The longest prefix of `s` without `ch`: where a reader of the link stops. */
  function TakeUntil(s: string, ch: char): (r: string)
    ensures |r| <= |s| && r == s[..|r|]
    ensures ch !in r
    ensures |r| == |s| || s[|r|] == ch
  {
    if s == [] || s[0] == ch then [] else [s[0]] + TakeUntil(s[1..], ch)
  }

  /** Reading up to the first `ch` of `a + [ch] + b` gives `a` back, when `a` has no `ch`. */
  lemma {:induction false} TakeUntilSplit(a: string, ch: char, b: string)
    requires ch !in a
    ensures TakeUntil(a + [ch] + b, ch) == a
  {
    if a != [] {
      assert (a + [ch] + b)[1..] == a[1..] + [ch] + b;
      TakeUntilSplit(a[1..], ch, b);
    }
  }

  /** The two ways the link is read: from the scheme on, and from the head on. */
  lemma Regroup(scheme: string, email: string, query: string, name: string, letter: string)
    ensures var url := scheme + email + "?" + query + name + "," + letter;
      && url[..|scheme|] == scheme
      && url[|scheme|..] == email + ['?'] + (query + name + "," + letter)
      && url[|scheme + email + "?" + query|..] == name + [','] + letter
  {
    var url := scheme + email + "?" + query + name + "," + letter;
    assert url == scheme + (email + ['?'] + (query + name + "," + letter));
    assert url == (scheme + email + "?" + query) + (name + [','] + letter);
  }

  /** The link starts with the scheme, right after the address comes the `?` that
      opens the query, and after the head come the name and a comma. */
  lemma MailtoShape(email: string, name: string)
    ensures var url := MailtoUrl(email, name);
      && url[..|SCHEME|] == SCHEME
      && url[|SCHEME|..] == email + ['?'] + (QUERY + name + "," + LETTER)
      && url[|Head(email)|..] == name + [','] + LETTER
  {
    Regroup(SCHEME, email, QUERY, name, LETTER);
  }

  /** When the address holds no `?`, a mail client reading the link up to the query gets
      the address back. */
  lemma EmailRecovered(email: string, name: string)
    requires '?' !in email
    ensures TakeUntil(MailtoUrl(email, name)[|SCHEME|..], '?') == email
  {
    MailtoShape(email, name);
    TakeUntilSplit(email, '?', QUERY + name + "," + LETTER);
  }

  /** When the name holds no comma, the greeting line carries the name up to the comma
      that follows it. */
  lemma NameRecovered(email: string, name: string)
    requires ',' !in name
    ensures TakeUntil(MailtoUrl(email, name)[|Head(email)|..], ',') == name
  {
    MailtoShape(email, name);
    TakeUntilSplit(name, ',', LETTER);
  }

  /** When neither address holds a `?`, two different cards never share a link; the
      names may contain anything, since the text after them is fixed. */
  lemma MailtoInjective(e1: string, n1: string, e2: string, n2: string)
    requires '?' !in e1 && '?' !in e2
    requires MailtoUrl(e1, n1) == MailtoUrl(e2, n2)
    ensures e1 == e2 && n1 == n2
  {
    EmailRecovered(e1, n1);
    EmailRecovered(e2, n2);
    MailtoShape(e1, n1);
    MailtoShape(e2, n2);
    var tail1, tail2 := n1 + [','] + LETTER, n2 + [','] + LETTER;
    assert tail1 == tail2;
    assert |n1| == |n2|;
    assert n1 == tail1[..|n1|] && n2 == tail2[..|n2|];
  }
}
