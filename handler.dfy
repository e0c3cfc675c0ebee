/**
  The `POST /api/submit` handler: read `name`, `email` and `consent` from
  the parsed body, check them in that order (the first failed check
  decides the 400 reply), and on success build the submission entry with
  the trimmed fields and the request metadata.

  Everything here is a pure function of the request; the one side effect,
  appending the entry to the log, is in module SubmissionLog.
*/
module Handler {
  import opened Wrappers
  import opened Js

  /** The three error strings, spelled exactly as the handler sends them. */
  const CONSENT_REQUIRED: JsString :=
    [0x63, 0x6F, 0x6E, 0x73, 0x65, 0x6E, 0x74, 0x20, 0x72, 0x65, 0x71, 0x75, 0x69, 0x72, 0x65, 0x64]  // "consent required"
  const BAD_NAME: JsString := [0x42, 0x61, 0x64, 0x20, 0x6E, 0x61, 0x6D, 0x65]         // "Bad name"
  const BAD_EMAIL: JsString := [0x42, 0x61, 0x64, 0x20, 0x65, 0x6D, 0x61, 0x69, 0x6C]  // "Bad email"

  const AT: CodeUnit := 0x40     // '@'
  const COMMA: CodeUnit := 0x2C  // ','

  const NAME_KEY: JsString := [0x6E, 0x61, 0x6D, 0x65]                  // "name"
  const EMAIL_KEY: JsString := [0x65, 0x6D, 0x61, 0x69, 0x6C]           // "email"
  const CONSENT_KEY: JsString := [0x63, 0x6F, 0x6E, 0x73, 0x65, 0x6E, 0x74]  // "consent"

  /**
    What the handler reads from a request. Header names are matched
    case-insensitively by the framework, so each header the handler reads
    is a field of its own; `None` means the header is absent.
  */
  datatype Request = Request(
    body: JsValue,                    // req.body: Undefined when no body was parsed
    forwardedFor: Option<JsString>,   // the x-forwarded-for header
    userAgent: Option<JsString>,      // the user-agent header
    remoteAddress: Option<JsString>)  // req.socket.remoteAddress: None once the socket is gone

  /**
    `meta` of an entry. `ip: None` is an undefined address (serialisation
    leaves the key out); `userAgent: None` is an explicit null.
  */
  datatype Meta = Meta(ip: Option<JsString>, userAgent: Option<JsString>)

  /** One submission as it is written to the log. */
  datatype Entry = Entry(name: JsString, email: JsString, consent: bool, meta: Meta)

  /** The JSON reply: `{ok: true}` with status 200, or `{ok: false, error}` with status 400. */
  datatype Reply = Accepted | Rejected(error: JsString)

  /** `req.body ?? {}`: a missing or null body reads as the empty object. */
  function BodyOrEmpty(body: JsValue): JsValue
  {
    if body.Undefined? || body.Null? then Obj(map[]) else body
  }

  /** Reading property `key` of a non-nullish value, as destructuring does: an object's own property, otherwise undefined. */
  function Get(v: JsValue, key: JsString): JsValue
  {
    if v.Obj? && key in v.props then v.props[key] else Undefined
  }

  /** `typeof name === 'string' && name.trim().length >= 2` (length in UTF-16 code units). */
  predicate NameOk(name: JsValue)
  {
    name.Str? && |Trim(name.s)| >= 2
  }

  /** `typeof email === 'string' && email.includes('@')`, on the untrimmed email. */
  predicate EmailOk(email: JsValue)
  {
    email.Str? && AT in email.s
  }

  /** The validation chain: the error of the first failed check, or None when all three pass. */
  function Validate(consent: JsValue, name: JsValue, email: JsValue): Option<JsString>
  {
    if !Truthy(consent) then Some(CONSENT_REQUIRED)
    else if !NameOk(name) then Some(BAD_NAME)
    else if !EmailOk(email) then Some(BAD_EMAIL)
    else None
  }

  /**
    `x-forwarded-for?.toString().split(',')[0].trim() || socket.remoteAddress`:
    the first hop of the forwarded-for header, trimmed, unless the header
    is missing or that hop is empty.
  */
  function ResolveIp(forwardedFor: Option<JsString>, remoteAddress: Option<JsString>): Option<JsString>
  {
    match forwardedFor
    case None => remoteAddress
    case Some(header) =>
      var hop := Trim(SplitFirst(header, COMMA));
      if hop != [] then Some(hop) else remoteAddress
  }

  /** `req.get('user-agent') || null`: an absent or empty header becomes null. */
  function UserAgentOf(header: Option<JsString>): Option<JsString>
  {
    if header.Some? && header.value != [] then header else None
  }

  /** The entry built once validation has passed. */
  function BuildEntry(name: JsString, email: JsString, req: Request): Entry
  {
    Entry(Trim(name), Trim(email), true,
          Meta(ResolveIp(req.forwardedFor, req.remoteAddress), UserAgentOf(req.userAgent)))
  }

  /** The fields the handler destructures from the body. */
  function ConsentOf(req: Request): JsValue { Get(BodyOrEmpty(req.body), CONSENT_KEY) }
  function NameOf(req: Request): JsValue { Get(BodyOrEmpty(req.body), NAME_KEY) }
  function EmailOf(req: Request): JsValue { Get(BodyOrEmpty(req.body), EMAIL_KEY) }

  /** The handler's decision: the entry to append, or the error of the 400 reply. */
  function Handle(req: Request): Result<Entry, JsString>
  {
    var consent, name, email := ConsentOf(req), NameOf(req), EmailOf(req);
    match Validate(consent, name, email)
    case Some(error) => Err(error)
    case None => Ok(BuildEntry(name.s, email.s, req))
  }

  /** The reply sent for a decision. */
  function ReplyOf(outcome: Result<Entry, JsString>): Reply
  {
    match outcome
    case Ok(_) => Accepted
    case Err(error) => Rejected(error)
  }

  /** What every entry the handler accepts satisfies. */
  predicate WellFormed(e: Entry)
  {
    e.consent &&
    |e.name| >= 2 && Trimmed(e.name) &&
    AT in e.email && Trimmed(e.email)
  }

  // ---------------------------------------------------------------------
  // Validation order

  /**
    Each error is sent exactly when every earlier check passed and its own
    check failed; the request is accepted exactly when all three pass.
  */
  lemma ValidationOrder(consent: JsValue, name: JsValue, email: JsValue)
    ensures Validate(consent, name, email) == Some(CONSENT_REQUIRED) <==> !Truthy(consent)
    ensures Validate(consent, name, email) == Some(BAD_NAME) <==> Truthy(consent) && !NameOk(name)
    ensures Validate(consent, name, email) == Some(BAD_EMAIL) <==>
              Truthy(consent) && NameOk(name) && !EmailOk(email)
    ensures Validate(consent, name, email) == None <==>
              Truthy(consent) && NameOk(name) && EmailOk(email)
  {
  }

  /** A falsy consent is refused whatever name and email are. */
  lemma ConsentDecidesFirst(consent: JsValue, name1: JsValue, email1: JsValue, name2: JsValue, email2: JsValue)
    requires !Truthy(consent)
    ensures Validate(consent, name1, email1) == Validate(consent, name2, email2) == Some(CONSENT_REQUIRED)
  {
  }

  /** Once the name is refused, the email is never looked at. */
  lemma BadNameIgnoresEmail(consent: JsValue, name: JsValue, email1: JsValue, email2: JsValue)
    requires Truthy(consent) && !NameOk(name)
    ensures Validate(consent, name, email1) == Validate(consent, name, email2) == Some(BAD_NAME)
  {
  }

  /** For a name with no white space at either end, the name check is a plain length check. */
  lemma UnpaddedNameCheck(name: JsString)
    requires Trimmed(name)
    ensures NameOk(Str(name)) <==> |name| >= 2
  {
    TrimFixedPoints(name);
  }

  /**
    The '@' test runs on the untrimmed email, but since '@' is not white
    space, it gives the same answer on the trimmed email that is stored.
  */
  lemma EmailCheckAgreesWithStoredEmail(email: JsString)
    ensures EmailOk(Str(email)) <==> AT in Trim(email)
  {
    IncludesSurvivesTrim(email, AT);
  }

  // ---------------------------------------------------------------------
  // The handler as a whole

  /** With no body (or a null one) there is no consent, so the reply is 'consent required'. */
  lemma MissingBodyRefused(req: Request)
    requires req.body.Undefined? || req.body.Null?
    ensures Handle(req) == Err(CONSENT_REQUIRED)
  {
  }

  /** A body that is not an object has no properties, so it is refused for missing consent too. */
  lemma NonObjectBodyRefused(req: Request)
    requires !req.body.Obj?
    ensures Handle(req) == Err(CONSENT_REQUIRED)
  {
  }

  /**
    The handler refuses with the validation error, and accepts exactly
    when validation passes; it then stores the trimmed name and email,
    consent true, and the resolved metadata.
  */
  lemma HandleFollowsValidation(req: Request)
    ensures Handle(req).Err? <==> Validate(ConsentOf(req), NameOf(req), EmailOf(req)).Some?
    ensures Handle(req).Err? ==> Some(Handle(req).error) == Validate(ConsentOf(req), NameOf(req), EmailOf(req))
    ensures Handle(req).Ok? ==>
              NameOf(req).Str? && EmailOf(req).Str? &&
              Handle(req).value.name == Trim(NameOf(req).s) &&
              Handle(req).value.email == Trim(EmailOf(req).s) &&
              Handle(req).value.consent &&
              Handle(req).value.meta == Meta(ResolveIp(req.forwardedFor, req.remoteAddress), UserAgentOf(req.userAgent))
  {
  }

  /**
    Every accepted entry is well formed: consent is true, the stored name
    has at least two code units and the stored email contains '@', and
    both are already trimmed.
  */
  lemma AcceptedEntryWellFormed(req: Request)
    requires Handle(req).Ok?
    ensures WellFormed(Handle(req).value)
  {
    HandleFollowsValidation(req);
    ValidationOrder(ConsentOf(req), NameOf(req), EmailOf(req));
    BuildEntryWellFormed(NameOf(req).s, EmailOf(req).s, req);
  }

  /**
    A consenting submission whose name and email carry no surrounding
    white space, the name at least two code units long and the email
    holding '@', is stored exactly as sent.
  */
  lemma CleanSubmissionStoredVerbatim(req: Request, name: JsString, email: JsString)
    requires Truthy(ConsentOf(req)) && NameOf(req) == Str(name) && EmailOf(req) == Str(email)
    requires Trimmed(name) && |name| >= 2 && Trimmed(email) && AT in email
    ensures Handle(req) ==
            Ok(Entry(name, email, true, Meta(ResolveIp(req.forwardedFor, req.remoteAddress), UserAgentOf(req.userAgent))))
  {
    assert Validate(ConsentOf(req), NameOf(req), EmailOf(req)) == None by {
      TrimFixedPoints(name);
      ValidationOrder(ConsentOf(req), NameOf(req), EmailOf(req));
    }
    assert Trim(name) == name && Trim(email) == email by {
      TrimFixedPoints(name);
      TrimFixedPoints(email);
    }
  }

  /** An entry built from a name that trims to two or more code units and an email holding '@' is well formed. */
  lemma BuildEntryWellFormed(name: JsString, email: JsString, req: Request)
    requires |Trim(name)| >= 2 && AT in email
    ensures WellFormed(BuildEntry(name, email, req))
  {
    IncludesSurvivesTrim(email, AT);
    TrimMeetsReference(name);
    TrimMeetsReference(email);
  }

  /** The reply is 200 `{ok: true}` exactly when an entry is produced, and otherwise carries the validation error. */
  lemma ReplyMatchesDecision(req: Request)
    ensures ReplyOf(Handle(req)) == Accepted <==> Handle(req).Ok?
    ensures ReplyOf(Handle(req)).Rejected? ==> ReplyOf(Handle(req)).error in {CONSENT_REQUIRED, BAD_NAME, BAD_EMAIL}
  {
  }

  // ---------------------------------------------------------------------
  // Client address and user agent

  /**
    A non-empty first hop of x-forwarded-for wins: whatever is left once
    white space is cut from both ends of the header's text before the first
    comma is recorded when it is non-empty. Otherwise (no header, or a blank
    first hop) the socket address is used.
  */
  lemma IpResolution(forwardedFor: Option<JsString>, remoteAddress: Option<JsString>, hop: JsString)
    requires forwardedFor.Some? ==> IsTrimOf(hop, SplitFirst(forwardedFor.value, COMMA))
    ensures forwardedFor.None? ==> ResolveIp(forwardedFor, remoteAddress) == remoteAddress
    ensures forwardedFor.Some? ==>
              ResolveIp(forwardedFor, remoteAddress) == (if hop != [] then Some(hop) else remoteAddress)
  {
    if forwardedFor.Some? {
      var field := SplitFirst(forwardedFor.value, COMMA);
      TrimMeetsReference(field);
      TrimUnique(hop, Trim(field), field);
    }
  }

  /** The absent header or socket address is `undefined`; a present one is a string. */
  function Optional(o: Option<JsString>): JsValue
  {
    match o
    case None => Undefined
    case Some(s) => Str(s)
  }

  /** A `null`-able string: `None` is `null`. */
  function Nullable(o: Option<JsString>): JsValue
  {
    match o
    case None => Null
    case Some(s) => Str(s)
  }

  /**
    The address is JavaScript's `||` of the optional-chained first hop and
    the socket address: `undefined` (no header) and `""` (a blank first
    hop) are both falsy and give way to the socket address.
  */
  lemma IpIsOr(forwardedFor: Option<JsString>, remoteAddress: Option<JsString>)
    ensures Optional(ResolveIp(forwardedFor, remoteAddress)) ==
            Or(match forwardedFor
               case None => Undefined
               case Some(header) => Str(Trim(SplitFirst(header, COMMA))),
               Optional(remoteAddress))
  {
  }

  /** The trimmed first hop of a forwarded-for header holds no comma and is the first field with its white space cut off. */
  lemma FirstHop(header: JsString)
    ensures COMMA !in Trim(SplitFirst(header, COMMA))
    ensures IsTrimOf(Trim(SplitFirst(header, COMMA)), SplitFirst(header, COMMA))
  {
    var field := SplitFirst(header, COMMA);
    SplitFirstSpec(header, COMMA);
    TrimMeetsReference(field);
    IncludesSurvivesTrim(field, COMMA);
  }

  /** A first hop made only of white space (e.g. `" , 10.0.0.1"`) falls back to the socket address. */
  lemma BlankFirstHopFallsBack(header: JsString, remoteAddress: Option<JsString>)
    requires WhiteSpaceBetween(SplitFirst(header, COMMA), 0, |SplitFirst(header, COMMA)|)
    ensures ResolveIp(Some(header), remoteAddress) == remoteAddress
  {
    TrimAllWhiteSpace(SplitFirst(header, COMMA));
  }

  /** Only the first hop counts: the hops after the first comma never change the recorded address. */
  lemma LaterHopsIgnored(first: JsString, rest1: JsString, rest2: JsString, remoteAddress: Option<JsString>)
    requires COMMA !in first
    ensures ResolveIp(Some(first + [COMMA] + rest1), remoteAddress) ==
            ResolveIp(Some(first + [COMMA] + rest2), remoteAddress)
  {
    SplitFirstAt(first, COMMA, rest1);
    SplitFirstAt(first, COMMA, rest2);
  }

  /**
    The recorded user agent is JavaScript's `header || null`: an absent
    header (`undefined`) and an empty one (`""`) are falsy and become `null`;
    any other header is recorded as it is.
  */
  lemma UserAgentRecorded(header: Option<JsString>)
    ensures Nullable(UserAgentOf(header)) == Or(Optional(header), Null)
    ensures UserAgentOf(header) == (if header.Some? && Truthy(Str(header.value)) then header else None)
  {
  }
}
