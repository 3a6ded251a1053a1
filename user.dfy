/**
 * The User record (app/models/user.rb): email presence, the password length
 * rule that applies only while a password is required, and the `before_save`
 * callback that lower-cases the email.
 */
module Users {
  import opened Wrappers
  import opened Text

  /** The minimum password length. */
  const MinPasswordLength: nat := 6

  datatype UserError = EmailBlank | PasswordTooShort(minimum: nat)

  /** `email.present?` on a possibly missing email. */
  predicate EmailPresent(email: Option<string>) {
    email.Some? && Present(email.value)
  }

  /** The email after `downcase_email`: lower-cased when present, otherwise left as it was. */
  function NormalizedEmail(email: Option<string>): (r: Option<string>)
    ensures r.Some? <==> email.Some?
    ensures r.Some? ==> EqualsIgnoreCase(r.value, email.value)
    ensures EmailPresent(email) ==> forall i :: 0 <= i < |r.value| ==> !('A' <= r.value[i] <= 'Z')
    ensures !EmailPresent(email) ==> r == email
  {
    if EmailPresent(email) then
      DowncasePreservesPresence(email.value);
      Some(Downcase(email.value))
    else email
  }

  /** Normalising an email twice is normalising it once. */
  lemma NormalizedEmailIdempotent(email: Option<string>)
    ensures NormalizedEmail(NormalizedEmail(email)) == NormalizedEmail(email)
  {
    if EmailPresent(email) {
      DowncasePreservesPresence(email.value);
      DowncaseIdempotent(email.value);
    }
  }

  /** Two emails that differ only in letter case normalise to the same email,
      which is what makes the case-insensitive uniqueness rule consistent with
      the stored, lower-cased values. */
  lemma NormalizedEmailIgnoresCase(a: string, b: string)
    requires EqualsIgnoreCase(a, b)
    ensures NormalizedEmail(Some(a)) == NormalizedEmail(Some(b))
  {
    assert forall i :: 0 <= i < |a| ==> (IsSpace(a[i]) <==> IsSpace(b[i])) by {
      forall i | 0 <= i < |a| ensures IsSpace(a[i]) <==> IsSpace(b[i]) {
        assert IsSpace(Lower(a[i])) <==> IsSpace(a[i]);
      }
    }
    assert Present(a) <==> Present(b);
    if Present(a) {
      assert Downcase(a) == Downcase(b);
    } else {
      forall i | 0 <= i < |a| ensures a[i] == b[i] {
        assert IsSpace(a[i]) && IsSpace(b[i]);
        assert a[i] == Lower(a[i]) && b[i] == Lower(b[i]);
      }
      assert a == b;
    }
  }

  /** `password_required?`: a user without a password digest, or one who is
      setting a non-blank password. */
  predicate PasswordRequired(password: Option<string>, passwordDigest: Option<string>) {
    passwordDigest.None? || (password.Some? && Present(password.value))
  }

  /** The length the length validator sees: a missing password counts as empty. */
  function PasswordLength(password: Option<string>): nat {
    if password.Some? then |password.value| else 0
  }

  /** The errors of `validates :email, presence: true` and of
      `validates :password, length: { minimum: 6 }, if: :password_required?`. */
  function UserErrors(email: Option<string>, password: Option<string>, passwordDigest: Option<string>): (es: seq<UserError>)
    ensures EmailBlank in es <==> !EmailPresent(email)
    ensures PasswordTooShort(MinPasswordLength) in es <==>
      PasswordRequired(password, passwordDigest) && PasswordLength(password) < MinPasswordLength
    ensures |es| <= 2
  {
    (if EmailPresent(email) then [] else [EmailBlank]) +
    (if PasswordRequired(password, passwordDigest) && PasswordLength(password) < MinPasswordLength
     then [PasswordTooShort(MinPasswordLength)] else [])
  }

  /** A user is valid when the email is present and, if a password is
      required, it has at least six characters. */
  predicate UserValid(email: Option<string>, password: Option<string>, passwordDigest: Option<string>) {
    EmailPresent(email) &&
    (PasswordRequired(password, passwordDigest) ==> PasswordLength(password) >= MinPasswordLength)
  }

  /** A user has no errors exactly when it is valid. */
  lemma NoErrorsIffValid(email: Option<string>, password: Option<string>, passwordDigest: Option<string>)
    ensures UserErrors(email, password, passwordDigest) == [] <==> UserValid(email, password, passwordDigest)
  {
    var es := UserErrors(email, password, passwordDigest);
    if es != [] {
      assert es[0] in es;
    }
  }

  /** A user without a digest must supply a password of six characters, and so
      must anyone setting a new password; a stored user updated without a new
      password (missing or blank) is not checked for length at all. */
  lemma PasswordRuleOnlyWhenRequired(email: Option<string>, password: Option<string>, passwordDigest: Option<string>)
    ensures passwordDigest.None? && PasswordLength(password) < MinPasswordLength ==>
      PasswordTooShort(MinPasswordLength) in UserErrors(email, password, passwordDigest)
    ensures password.Some? && Present(password.value) && |password.value| < MinPasswordLength ==>
      PasswordTooShort(MinPasswordLength) in UserErrors(email, password, passwordDigest)
    ensures passwordDigest.Some? && (password.None? || Blank(password.value)) ==>
      PasswordTooShort(MinPasswordLength) !in UserErrors(email, password, passwordDigest)
  {
  }

  /** Lower-casing the email does not change which errors a user has, so the
      `before_save` callback cannot make a validated user invalid. */
  lemma NormalizedEmailKeepsErrors(email: Option<string>, password: Option<string>, passwordDigest: Option<string>)
    ensures UserErrors(NormalizedEmail(email), password, passwordDigest) == UserErrors(email, password, passwordDigest)
  {
    if EmailPresent(email) {
      DowncasePreservesPresence(email.value);
    }
  }

  /** A user record; `save` validates and then runs the `before_save` callback. */
  class User {
    var email: Option<string>
    var password: Option<string>
    var passwordDigest: Option<string>
    var errors: seq<UserError>

    constructor(email: Option<string>, password: Option<string>, passwordDigest: Option<string>)
      ensures this.email == email && this.password == password && this.passwordDigest == passwordDigest
      ensures errors == []
    {
      this.email := email;
      this.password := password;
      this.passwordDigest := passwordDigest;
      errors := [];
    }

    /** `downcase_email`: lower-cases the email in place when it is present. */
    method DowncaseEmail()
      modifies this`email
      ensures email == NormalizedEmail(old(email))
    {
      if email.Some? && Present(email.value) {
        email := Some(Downcase(email.value));
      }
    }

    /** `valid?`: replaces `errors` with the validation errors. */
    method Validate() returns (ok: bool)
      modifies this`errors
      ensures errors == UserErrors(email, password, passwordDigest)
      ensures ok <==> UserValid(email, password, passwordDigest)
    {
      errors := UserErrors(email, password, passwordDigest);
      NoErrorsIffValid(email, password, passwordDigest);
      ok := errors == [];
    }

    /** `save`: validates, and only when valid runs `before_save :downcase_email`.
        A saved user is still valid after the callback. */
    method Save() returns (saved: bool)
      modifies this`email, this`errors
      ensures saved <==> UserValid(old(email), password, passwordDigest)
      ensures email == if saved then NormalizedEmail(old(email)) else old(email)
      ensures errors == UserErrors(old(email), password, passwordDigest)
      ensures saved ==> UserValid(email, password, passwordDigest)
    {
      saved := Validate();
      if saved {
        DowncaseEmail();
        NormalizedEmailKeepsErrors(old(email), password, passwordDigest);
        NoErrorsIffValid(email, password, passwordDigest);
        NoErrorsIffValid(old(email), password, passwordDigest);
      }
    }
  }
}
