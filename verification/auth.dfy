/** The demo authentication of `src/lib/auth.ts`: one storage key,
    `auth-demo-v1`, holding the signed-in user or nothing. The storage is
    modelled as that single slot, with writing and reading back assumed to
    round-trip. */
module Auth {
  import opened Options
  import opened JsText

  datatype User = User(email: string, name: string)

  /** The contents of the one key. */
  type Slot = Option<User>

  /** `email.split('@')[0]`. */
  function NameFromEmail(email: string): (name: string)
    ensures name <= email
    ensures '@' !in name
    ensures |name| < |email| ==> email[|name|] == '@'
  {
    BeforeFirst(email, '@')
  }

  /** `` `${firstName} ${lastName}`.trim() ``. */
  function FullName(first: string, last: string): (name: string)
    ensures name == [] || (!IsWhite(name[0]) && !IsWhite(name[|name| - 1]))
  {
    Trim(first + " " + last)
  }

  /** `signIn`: stores the email and its part before the first '@'. The
      previous contents of the slot play no part. */
  function SignIn(slot: Slot, email: string): (r: Slot)
    ensures r.Some? && r.value.email == email
    ensures r.value.name <= email && '@' !in r.value.name
    ensures '@' in email ==> r.value.name + ['@'] <= email
    ensures '@' !in email ==> r.value.name == email
  {
    Some(User(email, NameFromEmail(email)))
  }

  /** `signUp`: stores the email and the trimmed full name. */
  function SignUp(slot: Slot, first: string, last: string, email: string): (r: Slot)
    ensures r.Some? && r.value.email == email
    ensures r.value.name == FullName(first, last)
  {
    Some(User(email, FullName(first, last)))
  }

  /** `signOut`: removes the key. */
  function SignOut(slot: Slot): (r: Slot)
    ensures r.None?
  {
    None
  }

  /** `getUser`: the parsed contents of the key, or null when it is unset. */
  function GetUser(slot: Slot): Option<User> {
    slot
  }

  /** A sign-in or sign-up replaces whatever was stored: the result does not
      depend on the previous slot. */
  lemma WritesOverwrite(s1: Slot, s2: Slot, first: string, last: string, email: string)
    ensures SignIn(s1, email) == SignIn(s2, email)
    ensures SignUp(s1, first, last, email) == SignUp(s2, first, last, email)
  {
  }

  /** Reading after a write returns exactly what was written; reading after
      sign-out returns nothing. */
  lemma ReadAfterWrite(slot: Slot, first: string, last: string, email: string)
    ensures GetUser(SignOut(slot)).None?
    ensures GetUser(SignIn(slot, email)) == Some(User(email, NameFromEmail(email)))
    ensures GetUser(SignUp(slot, first, last, email)) == Some(User(email, FullName(first, last)))
  {
  }

  /** With an empty last name, the name is the trimmed first name. */
  lemma SignUpEmptyLastName(first: string)
    ensures FullName(first, "") == Trim(first)
  {
    assert first + " " + "" == first + [' '];
    TrimAppendWhite(first, ' ');
  }

  /** Names without surrounding white space are joined by one space. */
  lemma SignUpJoinsNames(first: string, last: string)
    requires first != [] && !IsWhite(first[0])
    requires last != [] && !IsWhite(last[|last| - 1])
    ensures FullName(first, last) == first + " " + last
  {
    var s := first + " " + last;
    assert s[0] == first[0] && s[|s| - 1] == last[|last| - 1];
    TrimOfTrimmed(s);
  }
}
