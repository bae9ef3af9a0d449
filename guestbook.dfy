/**
 * One request to the guestbook page: consume the flash notice, and for a
 * POST run the checks, store the entry, stamp the rate-limit marker, set
 * the flash and redirect (post/redirect/get); otherwise read the entries
 * and render the page. Time, the client's address and user agent, random
 * hex strings, SHA-256, JSON and whether the files can be opened are
 * given by the environment.
 */
module Guestbook {
  import opened Wrappers
  import opened Text
  import opened Config
  import opened EntryLog
  import opened Sessions
  import opened Validation

  /** The POST fields `name`, `message`, `csrf` and `hp_web`; a missing
      field is `""`. */
  datatype Form = Form(name: string, message: string, csrf: string, honeypot: string)

  /** `REQUEST_METHOD`, `REQUEST_URI` and the POST fields. */
  datatype Request = Request(verb: string, uri: string, form: Form)

  /** What the request sees of the world. `entryId` and `freshToken` are
      `bin2hex(random_bytes(8))` and `bin2hex(random_bytes(32))`;
      `writable` and `readable` say whether the entry log can be opened
      and locked for appending and for reading. */
  datatype Env = Env(now: int, remoteAddr: Option<string>, userAgent: string,
                     entryId: string, freshToken: string,
                     sha256: string -> string,
                     encode: Entry -> Option<string>, decode: string -> Option<Entry>,
                     writable: bool, readable: bool)

  /** A redirect (`Location` header), or the rendered page's inputs: the
      flash notice, the error list, the entries shown, the CSRF token in
      the form, and the name and message the form is pre-filled with. */
  datatype Response =
    | Redirect(location: string)
    | Page(flash: Option<string>, errors: seq<Violation>, entries: seq<Entry>, csrfToken: string,
           name: string, message: string)

  /** `client_ip()`: `REMOTE_ADDR`, or `0.0.0.0` when it is unset. */
  function ClientIp(env: Env): (ip: string)
    ensures env.remoteAddr.Some? ==> ip == env.remoteAddr.value
    ensures env.remoteAddr.None? ==> ip == "0.0.0.0"
  {
    env.remoteAddr.GetOr("0.0.0.0")
  }

  /** The name of the client's rate-limit marker: the SHA-256 of its
      address, so two requests from one address share a marker. */
  function MarkerKey(env: Env): (key: string)
    ensures key == env.sha256(ClientIp(env))
    ensures env.remoteAddr.None? ==> key == env.sha256("0.0.0.0")
  {
    env.sha256(ClientIp(env))
  }

  /** The marker's mtime, if the marker exists. */
  function MarkerTime(markers: map<string, int>, key: string): Option<int> {
    if key in markers then Some(markers[key]) else None
  }

  /** `substr($s, 0, 16)`. */
  function Prefix16(s: string): (r: string)
    ensures r <= s && |r| == if |s| < 16 then |s| else 16
  {
    s[..if |s| < 16 then |s| else 16]
  }

  /** The entry the accept path stores: a fresh id, the request time, the
      trimmed name and message as typed, and the first 16 characters of
      the hash of the client's address and user agent. */
  function NewEntry(form: Form, env: Env): (e: Entry)
    ensures e.id == env.entryId && e.ts == env.now
    ensures e.name == Trim(form.name) && e.message == Trim(form.message)
    ensures e.ipHash == Prefix16(env.sha256(ClientIp(env) + "|" + env.userAgent))
  {
    Entry(env.entryId, env.now, Trim(form.name), Trim(form.message),
          Prefix16(env.sha256(ClientIp(env) + "|" + env.userAgent)))
  }

  /** The rate-limit check for this client. */
  function Wait(markers: map<string, int>, env: Env): Option<int> {
    CooldownWait(MarkerTime(markers, MarkerKey(env)), env.now, CooldownSecs)
  }

  /** The POST passes every check against the session token `csrf` and the
      markers `markers`. */
  predicate PostPasses(form: Form, csrf: Option<string>, markers: map<string, int>, env: Env) {
    Passes(Trim(form.honeypot), CsrfValid(csrf, form.csrf), Trim(form.name), Trim(form.message),
           Wait(markers, env))
  }

  /** The request's outcome is an accepted, stored entry. */
  predicate Stores(req: Request, csrf: Option<string>, markers: map<string, int>, env: Env) {
    && req.verb == "POST"
    && PostPasses(req.form, csrf, markers, env)
    && env.writable && env.encode(NewEntry(req.form, env)).Some?
  }

  method HandleRequest(dir: DataDir, session: Session, req: Request, env: Env) returns (resp: Response)
    modifies dir, session
    // an entry is stored, the marker stamped and the flash set exactly when
    // the POST passes every check and the store succeeds; then the client
    // is redirected to the URI without its query
    ensures resp.Redirect? <==> Stores(req, old(session.csrf), old(dir.markers), env)
    ensures resp.Redirect? ==>
              && resp.location == StripQuery(req.uri)
              && dir.entries == old(dir.entries) + [env.encode(NewEntry(req.form, env)).value]
              && dir.markers == old(dir.markers)[MarkerKey(env) := env.now]
              && session.flash == Some(SavedNotice)
              && session.csrf == old(session.csrf)
    // otherwise nothing is stored or stamped, the old flash is shown once,
    // the page lists the log's newest entries and carries a valid token
    ensures resp.Page? ==>
              && dir.entries == old(dir.entries)
              && dir.markers == old(dir.markers)
              && session.flash == None
              && resp.flash == old(session.flash)
              && resp.entries == (if env.readable then ReadView(dir.entries, env.decode, ShowLimit) else [])
              && CsrfValid(session.csrf, resp.csrfToken)
              && (!PhpEmpty(old(session.csrf)) ==> session.csrf == old(session.csrf))
              && (PhpEmpty(old(session.csrf)) ==> session.csrf == Some(env.freshToken))
    // a GET renders an empty form with no errors
    ensures req.verb != "POST" ==> resp.Page? && resp.errors == [] && resp.name == "" && resp.message == ""
    // a POST that fails a check lists exactly the failing checks, in order,
    // and re-fills the form with the trimmed input
    ensures req.verb == "POST" && !PostPasses(req.form, old(session.csrf), old(dir.markers), env) ==>
              && resp.Page?
              && Describes(resp.errors, Trim(req.form.honeypot), CsrfValid(old(session.csrf), req.form.csrf),
                           Trim(req.form.name), Trim(req.form.message), Wait(old(dir.markers), env))
              && resp.name == Trim(req.form.name) && resp.message == Trim(req.form.message)
    // a POST that passes but cannot be stored shows the one storage error
    ensures req.verb == "POST" && PostPasses(req.form, old(session.csrf), old(dir.markers), env) && resp.Page? ==>
              resp.errors == [StoreFailed] && resp.name == Trim(req.form.name) && resp.message == Trim(req.form.message)
  {
    var flash := session.ConsumeFlash();
    var errors: seq<Violation> := [];
    var name, message := "", "";
    if req.verb == "POST" {
      name := Trim(req.form.name);
      message := Trim(req.form.message);
      var token := req.form.csrf;
      var hp := Trim(req.form.honeypot);

      var key := MarkerKey(env);
      var wait := CooldownWait(MarkerTime(dir.markers, key), env.now, CooldownSecs);

      errors := CollectViolations(hp, CsrfValid(session.csrf, token), name, message, wait);
      DescribesEmpty(errors, hp, CsrfValid(session.csrf, token), name, message, wait);

      if errors == [] {
        var entry := NewEntry(req.form, env);
        var ok := dir.StoreEntry(entry, env.encode, env.writable);
        if ok {
          dir.Stamp(key, env.now);
          session.SetFlash(SavedNotice);
          return Redirect(StripQuery(req.uri));
        }
        errors := errors + [StoreFailed];
      }
    }
    var entries := ReadEntries(dir.entries, env.decode, ShowLimit, env.readable);
    var token := session.CsrfToken(env.freshToken);
    resp := Page(flash, errors, entries, token, name, message);
  }

  /** An accepted POST followed by a GET: the GET shows the flash notice
      once and the new entry first, provided the decoder reads back what
      the encoder wrote. */
  method PostThenGet(dir: DataDir, session: Session, post: Request, get: Request, env: Env, later: Env)
      returns (first: Response, second: Response)
    requires Stores(post, session.csrf, dir.markers, env)
    requires get.verb == "GET"
    requires later.readable && later.decode == env.decode
    requires Yields(env.encode(NewEntry(post.form, env)).value, env.decode, NewEntry(post.form, env))
    modifies dir, session
    ensures first.Redirect? && second.Page?
    ensures second.flash == Some(SavedNotice) && session.flash == None
    ensures |second.entries| >= 1 && second.entries[0] == NewEntry(post.form, env)
  {
    ghost var log := dir.entries;
    first := HandleRequest(dir, session, post, env);
    second := HandleRequest(dir, session, get, later);
    StoredEntryReadFirst(log, NewEntry(post.form, env), env.encode, env.decode, ShowLimit);
  }

  /** A second POST from the same client within the cooldown is refused
      with the remaining wait, and nothing more is stored. */
  method SecondPostTooFast(dir: DataDir, session: Session, post: Request, again: Request, env: Env, later: Env)
      returns (first: Response, second: Response)
    requires Stores(post, session.csrf, dir.markers, env)
    requires again.verb == "POST"
    requires MarkerKey(later) == MarkerKey(env)
    requires 0 <= later.now - env.now < CooldownSecs
    modifies dir, session
    ensures first.Redirect? && second.Page?
    ensures TooFast(CooldownSecs - (later.now - env.now)) in second.errors
    ensures 1 <= CooldownSecs - (later.now - env.now) <= CooldownSecs
    ensures dir.entries == old(dir.entries) + [env.encode(NewEntry(post.form, env)).value]
  {
    first := HandleRequest(dir, session, post, env);
    assert MarkerTime(dir.markers, MarkerKey(later)) == Some(env.now);
    second := HandleRequest(dir, session, again, later);
  }
}
