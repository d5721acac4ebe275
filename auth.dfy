/** The signed-in user record built on a (simulated) successful sign-in. */
module Auth {

  datatype User = User(email: string, name: string)

  /** `email.split('@')[0]`: everything before the first '@', or the whole string
      when it has none. */
  function DisplayName(email: string): (name: string)
    ensures name <= email
    ensures '@' !in name
    ensures |name| < |email| ==> email[|name|] == '@'
  {
    if email == [] || email[0] == '@' then []
    else [email[0]] + DisplayName(email[1..])
  }

  /** `{ email, name: email.split('@')[0] }`. */
  function SignedInUser(email: string): (u: User)
    ensures u.email == email
    ensures u.name <= email && '@' !in u.name
    ensures |u.name| < |email| ==> email[|u.name|] == '@'
  {
    User(email, DisplayName(email))
  }

  // ---------------------------------------------------------------------------
  // Lemmas

  /** The three properties of DisplayName's contract pin the name down: it is the
      only '@'-free prefix that is followed by an '@' or by nothing. */
  lemma DisplayNameUnique(email: string, p: string)
    requires p <= email && '@' !in p
    requires |p| < |email| ==> email[|p|] == '@'
    ensures p == DisplayName(email)
  {
  }

  /** The name of `local@domain` is `local`, whatever the domain holds (more '@'s
      included). */
  lemma NameOfAddress(local: string, domain: string)
    requires '@' !in local
    ensures DisplayName(local + "@" + domain) == local
  {
    var email := local + "@" + domain;
    assert email[|local|] == '@';
    DisplayNameUnique(email, local);
  }

  /** A string with no '@' is its own name. */
  lemma NameWithoutAt(email: string)
    requires '@' !in email
    ensures DisplayName(email) == email
  {
    DisplayNameUnique(email, email);
  }
}
