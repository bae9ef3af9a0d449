/**
 * Per-client session state: the CSRF token and the one-shot flash notice.
 * `None` is a key that is unset.
 */
module Sessions {
  import opened Wrappers

  /** PHP's `empty()` on a session string: unset, `""` or `"0"`. */
  function PhpEmpty(v: Option<string>): (empty: bool)
    ensures v.None? ==> empty
    ensures v == Some("0") ==> empty
    ensures !empty ==> v.Some? && v.value != "" && v.value != "0"
    ensures v.Some? && v.value != "" && v.value != "0" ==> !empty
  {
    v.None? || v.value == "" || v.value == "0"
  }

  /** `csrf_valid($t)`: a session token exists and equals the submitted one
      (`hash_equals` is a constant-time equality). */
  function CsrfValid(stored: Option<string>, submitted: string): (ok: bool)
    ensures stored.None? ==> !ok
    ensures ok ==> stored.value == submitted
    ensures stored == Some(submitted) ==> ok
  {
    stored.Some? && stored.value == submitted
  }

  class Session {
    var csrf: Option<string>
    var flash: Option<string>

    constructor (csrf: Option<string>, flash: Option<string>)
      ensures this.csrf == csrf && this.flash == flash
    {
      this.csrf := csrf;
      this.flash := flash;
    }

    /** `csrf_token()`: keeps a non-empty stored token and returns it;
        otherwise stores `freshToken` (the hex of 32 random bytes) and
        returns that. Either way the returned token is the valid one. */
    method CsrfToken(freshToken: string) returns (t: string)
      modifies this`csrf
      ensures !PhpEmpty(old(csrf)) ==> csrf == old(csrf) && t == old(csrf).value
      ensures PhpEmpty(old(csrf)) ==> csrf == Some(freshToken) && t == freshToken
      ensures CsrfValid(csrf, t)
    {
      if PhpEmpty(csrf) {
        csrf := Some(freshToken);
      }
      t := csrf.value;
    }

    /** Reads the flash notice and clears it, so it is shown once. */
    method ConsumeFlash() returns (f: Option<string>)
      modifies this`flash
      ensures f == old(flash) && flash == None
    {
      f := flash;
      flash := None;
    }

    /** Stores the flash notice for the next request. */
    method SetFlash(notice: string)
      modifies this`flash
      ensures flash == Some(notice)
    {
      flash := Some(notice);
    }
  }

  /** The flash is one-shot: the first read returns the stored notice, a
      second read in a row finds nothing, and the token is left alone. */
  method FlashShownOnce(s: Session) returns (first: Option<string>, second: Option<string>)
    modifies s
    ensures first == old(s.flash) && second == None
    ensures s.csrf == old(s.csrf) && s.flash == None
  {
    first := s.ConsumeFlash();
    second := s.ConsumeFlash();
  }
}
