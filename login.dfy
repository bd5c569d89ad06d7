/** The master-password gate in front of the application: one storage cell
    holds the saved password; the first visit registers one, later visits
    must repeat it. */
module Login {
  import opened Types
  import Strings

  const MinLength: nat := 4
  const TooShort: string := "Password must be at least 4 characters."
  const Mismatch: string := "Passwords do not match."
  const Incorrect: string := "Incorrect password. Please try again."

  /** What one submit decides. */
  datatype Outcome =
    | Rejected(message: string, clearsField: bool)
    | Registered(password: string)
    | Accepted(password: string)

  /** The branches of `handleSubmit`, given the mode fixed when the form
      was shown and the storage cell read at submit time. */
  function Decide(isFirstTime: bool, saved: Option<string>, password: string, confirm: string): (o: Outcome)
    ensures o.Registered? ==>
      isFirstTime && o.password == password && confirm == password
      && Strings.Utf16Length(password) >= MinLength
    ensures o.Accepted? ==> !isFirstTime && saved == Some(password) && o.password == password
    ensures o.Rejected? ==> o.message in {TooShort, Mismatch, Incorrect}
  {
    if isFirstTime then
      if Strings.Utf16Length(password) < MinLength then Rejected(TooShort, false)
      else if password != confirm then Rejected(Mismatch, false)
      else Registered(password)
    else if saved == Some(password) then Accepted(password)
    else Rejected(Incorrect, true)
  }

  /** A submit lets the user in exactly when it registers a long enough,
      confirmed password, or repeats the saved one. */
  lemma LoginIff(isFirstTime: bool, saved: Option<string>, password: string, confirm: string)
    ensures !Decide(isFirstTime, saved, password, confirm).Rejected?
        <==> (isFirstTime && Strings.Utf16Length(password) >= MinLength && password == confirm)
             || (!isFirstTime && saved == Some(password))
  {
  }

  /** The length check comes first: a short password is refused as too
      short whatever the confirmation says. */
  lemma LengthCheckedFirst(saved: Option<string>, password: string, confirm: string)
    requires Strings.Utf16Length(password) < MinLength
    ensures Decide(true, saved, password, confirm) == Rejected(TooShort, false)
  {
  }

  /** In first-time mode the stored password is never consulted, so a second
      registration in the same session overwrites the first. */
  lemma FirstTimeIgnoresStorage(s1: Option<string>, s2: Option<string>, password: string, confirm: string)
    ensures Decide(true, s1, password, confirm) == Decide(true, s2, password, confirm)
    ensures Strings.Utf16Length(password) >= MinLength && password == confirm ==> Decide(true, s1, password, confirm) == Registered(password)
  {
  }

  /** The length rule counts UTF-16 code units: three characters, one of
      them outside the Basic Multilingual Plane, are long enough. */
  lemma LengthInCodeUnits()
    ensures Strings.Utf16Length("a\U{1F600}b") == 4
    ensures Decide(true, None, "a\U{1F600}b", "a\U{1F600}b") == Registered("a\U{1F600}b")
  {
    assert "a\U{1F600}b"[1..] == "\U{1F600}b";
    assert "\U{1F600}b"[1..] == "b";
  }

  /** A returning user whose storage cell has been emptied cannot log in. */
  lemma ReturningWithoutSaved(password: string, confirm: string)
    ensures Decide(false, None, password, confirm) == Rejected(Incorrect, true)
  {
  }

  class LoginGate {
    /** The `nexus_master_password` storage cell. */
    var saved: Option<string>
    var password: string
    var confirmPassword: string
    var error: string
    var isFirstTime: bool
    /** The argument of the `onLogin` call, once it has been made. */
    var loggedIn: Option<string>

    /** Whoever got in did so with the password now saved. */
    predicate Valid()
      reads this
    {
      loggedIn.Some? ==> saved == loggedIn
    }

    /** Mounting reads the cell: first-time mode when nothing (or the empty
        string) is saved. */
    constructor(stored: Option<string>)
      ensures saved == stored && isFirstTime == !Present(stored)
      ensures password == "" && confirmPassword == "" && error == "" && loggedIn == None
      ensures Valid()
    {
      saved := stored;
      password := "";
      confirmPassword := "";
      error := "";
      isFirstTime := !Present(stored);
      loggedIn := None;
    }

    /** Typing in a field stores the text and clears the error message. */
    method SetPassword(value: string)
      modifies this
      ensures password == value && error == ""
      ensures saved == old(saved) && confirmPassword == old(confirmPassword)
      ensures isFirstTime == old(isFirstTime) && loggedIn == old(loggedIn)
    {
      password := value;
      error := "";
    }

    method SetConfirmPassword(value: string)
      modifies this
      ensures confirmPassword == value && error == ""
      ensures saved == old(saved) && password == old(password)
      ensures isFirstTime == old(isFirstTime) && loggedIn == old(loggedIn)
    {
      confirmPassword := value;
      error := "";
    }

    /** `handleSubmit`, with its early returns. */
    method HandleSubmit()
      modifies this
      ensures var o := Decide(old(isFirstTime), old(saved), old(password), old(confirmPassword));
        match o
        case Rejected(message, clears) =>
          error == message && password == (if clears then "" else old(password))
          && saved == old(saved) && loggedIn == old(loggedIn)
        case Registered(pw) =>
          saved == Some(pw) && loggedIn == Some(pw)
          && password == old(password) && error == old(error)
        case Accepted(pw) =>
          loggedIn == Some(pw) && saved == old(saved)
          && password == old(password) && error == old(error)
      ensures isFirstTime == old(isFirstTime) && confirmPassword == old(confirmPassword)
      ensures old(Valid()) ==> Valid()
    {
      var savedPassword := saved;
      if isFirstTime {
        if Strings.Utf16Length(password) < MinLength {
          error := TooShort;
          return;
        }
        if password != confirmPassword {
          error := Mismatch;
          return;
        }
        saved := Some(password);
        loggedIn := Some(password);
      } else {
        if savedPassword == Some(password) {
          loggedIn := Some(password);
        } else {
          error := Incorrect;
          password := "";
        }
      }
    }
  }
}
