/**
 * The `/api/contact` endpoint: the request schema, the two outgoing mails,
 * and the mapping of outcomes to HTTP responses.
 *
 * The e-mail shape rule and the mail transport are not visible here; they
 * are parameters (`isEmail`, `delivers`).
 */
module ContactRoute {
  import opened Wrappers

  // ---------------------------------------------------------------------------
  // Request bodies and the schema
  // ---------------------------------------------------------------------------

  /** A JSON value, as far as the schema distinguishes: a string, or anything else. */
  datatype Json = JString(s: string) | JOther

  /** The five keys the schema declares. */
  datatype Key = FirstName | LastName | Email | Subject | Message {
    /** The key as it is spelled in the JSON body. */
    function Name(): string {
      match this
      case FirstName => "firstName"
      case LastName => "lastName"
      case Email => "email"
      case Subject => "subject"
      case Message => "message"
    }
  }

  /**
   * The decoded request body: a JSON object, of which only the schema's keys
   * matter (the parser ignores any others), or anything that is not an object.
   */
  datatype Body = Object(fields: map<Key, Json>) | NotObject

  /** The one check each schema entry applies after "is a string". */
  datatype Check = MinLength(min: nat) | EmailShape

  /** A schema entry: the key, its check, and the message reported when the check fails. */
  datatype FieldRule = FieldRule(key: Key, check: Check, message: string)

  /** The contact schema, in declaration order. */
  const ContactSchema: seq<FieldRule> := [
    FieldRule(FirstName, MinLength(1), "First name is required"),
    FieldRule(LastName, MinLength(1), "Last name is required"),
    FieldRule(Email, EmailShape, "Valid email is required"),
    FieldRule(Subject, MinLength(1), "Subject is required"),
    FieldRule(Message, MinLength(10), "Message must be at least 10 characters")
  ]

  /**
   * The schema checks each of the five keys exactly once: e-mail by the
   * e-mail rule, the message by a minimum of 10 characters, and the other
   * three by a minimum of one.
   */
  lemma SchemaRules()
    ensures |ContactSchema| == 5
    ensures forall i, j :: 0 <= i < j < |ContactSchema| ==> ContactSchema[i].key != ContactSchema[j].key
    ensures (set rule | rule in ContactSchema :: rule.key) == {FirstName, LastName, Email, Subject, Message}
    ensures forall k :: 0 <= k < |ContactSchema| ==>
      ContactSchema[k].check == (match ContactSchema[k].key
        case Email => EmailShape
        case Message => MinLength(10)
        case _ => MinLength(1))
  {
    var keys := set rule | rule in ContactSchema :: rule.key;
    assert ContactSchema[0] in ContactSchema && ContactSchema[1] in ContactSchema && ContactSchema[2] in ContactSchema;
    assert ContactSchema[3] in ContactSchema && ContactSchema[4] in ContactSchema;
    assert {FirstName, LastName, Email, Subject, Message} <= keys;
  }

  /** Why a field was rejected. */
  datatype IssueCode =
    | InvalidType(missing: bool)   // absent, or present but not a string
    | TooSmall(minimum: nat)       // a string shorter than the minimum
    | InvalidEmail                 // a string the e-mail rule rejects
    | NotAnObject                  // the body itself is not an object

  /** One validation issue: the offending key (none for the body itself), the code, and the message. */
  datatype Issue = Issue(path: Option<Key>, code: IssueCode, message: string)

  /** The validated payload. */
  datatype ContactData = ContactData(
    firstName: string,
    lastName: string,
    email: string,
    subject: string,
    message: string)

  /** Does string `s` pass `check`? */
  predicate Passes(s: string, check: Check, isEmail: string -> bool) {
    match check
    case MinLength(m) => |s| >= m
    case EmailShape => isEmail(s)
  }

  /** Field `rule.key` is present, is a string, and passes its check. */
  predicate FieldValid(fields: map<Key, Json>, rule: FieldRule, isEmail: string -> bool) {
    rule.key in fields && fields[rule.key].JString? && Passes(fields[rule.key].s, rule.check, isEmail)
  }

  /** The issues one schema entry reports: none when the field is valid, otherwise exactly one. */
  function FieldIssues(fields: map<Key, Json>, rule: FieldRule, isEmail: string -> bool): (r: seq<Issue>)
    ensures r == [] <==> FieldValid(fields, rule, isEmail)
    ensures |r| <= 1
    ensures forall k :: 0 <= k < |r| ==> r[k].path == Some(rule.key)
  {
    if rule.key !in fields then
      [Issue(Some(rule.key), InvalidType(true), "Required")]
    else if !fields[rule.key].JString? then
      [Issue(Some(rule.key), InvalidType(false), "Expected string")]
    else if Passes(fields[rule.key].s, rule.check, isEmail) then
      []
    else
      match rule.check
      case MinLength(m) => [Issue(Some(rule.key), TooSmall(m), rule.message)]
      case EmailShape => [Issue(Some(rule.key), InvalidEmail, rule.message)]
  }

  /** Every entry of the schema is checked; the issues are collected in schema order. */
  function SchemaIssues(fields: map<Key, Json>, rules: seq<FieldRule>, isEmail: string -> bool): seq<Issue>
  {
    if rules == [] then []
    else FieldIssues(fields, rules[0], isEmail) + SchemaIssues(fields, rules[1..], isEmail)
  }

  /** No issue is reported exactly when every field of the schema is valid. */
  lemma {:induction false} SchemaIssuesEmpty(fields: map<Key, Json>, rules: seq<FieldRule>, isEmail: string -> bool)
    ensures SchemaIssues(fields, rules, isEmail) == [] <==>
            forall k :: 0 <= k < |rules| ==> FieldValid(fields, rules[k], isEmail)
  {
    if rules != [] {
      SchemaIssuesEmpty(fields, rules[1..], isEmail);
      assert forall k :: 0 <= k < |rules| - 1 ==> rules[1..][k] == rules[k + 1];
    }
  }

  /**
   * Validation does not stop at the first failure: an issue is reported
   * exactly when it is the issue of some schema entry.
   */
  lemma {:induction false} SchemaIssuesCollect(fields: map<Key, Json>, rules: seq<FieldRule>, isEmail: string -> bool, i: Issue)
    ensures i in SchemaIssues(fields, rules, isEmail) <==>
            exists k :: 0 <= k < |rules| && i in FieldIssues(fields, rules[k], isEmail)
  {
    if rules != [] {
      SchemaIssuesCollect(fields, rules[1..], isEmail, i);
      if i in SchemaIssues(fields, rules, isEmail) {
        if i !in FieldIssues(fields, rules[0], isEmail) {
          var k :| 0 <= k < |rules[1..]| && i in FieldIssues(fields, rules[1..][k], isEmail);
          assert rules[1..][k] == rules[k + 1];
        }
      }
      if exists k :: 0 <= k < |rules| && i in FieldIssues(fields, rules[k], isEmail) {
        var k :| 0 <= k < |rules| && i in FieldIssues(fields, rules[k], isEmail);
        if k > 0 {
          assert rules[k] == rules[1..][k - 1];
        }
      }
    }
  }

  /** `contactSchema.parse(req.body)`: the payload, or every issue found. */
  function Parse(body: Body, isEmail: string -> bool): (r: Result<ContactData, seq<Issue>>)
    ensures body.NotObject? ==> r.Err?
    ensures r.Err? ==> |r.error| >= 1
  {
    match body
    case NotObject => Err([Issue(None, NotAnObject, "Expected object")])
    case Object(f) =>
      var issues := SchemaIssues(f, ContactSchema, isEmail);
      if issues != [] then Err(issues)
      else
        SchemaIssuesEmpty(f, ContactSchema, isEmail);
        assert FieldValid(f, ContactSchema[0], isEmail) && FieldValid(f, ContactSchema[1], isEmail)
            && FieldValid(f, ContactSchema[2], isEmail) && FieldValid(f, ContactSchema[3], isEmail)
            && FieldValid(f, ContactSchema[4], isEmail);
        Ok(ContactData(f[FirstName].s, f[LastName].s, f[Email].s, f[Subject].s, f[Message].s))
  }

  /** The string under `key`, when there is one. */
  function StringField(body: Body, key: Key): Option<string> {
    if body.Object? && key in body.fields && body.fields[key].JString? then Some(body.fields[key].s)
    else None
  }

  /** The schema's rules written out field by field: five strings with these lengths and an accepted e-mail. */
  predicate WellFormed(body: Body, isEmail: string -> bool) {
    && StringField(body, FirstName).Some? && |StringField(body, FirstName).value| >= 1
    && StringField(body, LastName).Some? && |StringField(body, LastName).value| >= 1
    && StringField(body, Email).Some? && isEmail(StringField(body, Email).value)
    && StringField(body, Subject).Some? && |StringField(body, Subject).value| >= 1
    && StringField(body, Message).Some? && |StringField(body, Message).value| >= 10
  }

  /**
   * Parsing succeeds exactly on well-formed bodies, and the payload holds
   * the submitted strings unchanged.
   */
  lemma ParseAcceptsExactly(body: Body, isEmail: string -> bool)
    ensures Parse(body, isEmail).Ok? <==> WellFormed(body, isEmail)
    ensures Parse(body, isEmail).Ok? ==>
      var d := Parse(body, isEmail).value;
      && Some(d.firstName) == StringField(body, FirstName)
      && Some(d.lastName) == StringField(body, LastName)
      && Some(d.email) == StringField(body, Email)
      && Some(d.subject) == StringField(body, Subject)
      && Some(d.message) == StringField(body, Message)
  {
    if body.Object? {
      var f := body.fields;
      SchemaIssuesEmpty(f, ContactSchema, isEmail);
      if WellFormed(body, isEmail) {
        forall k | 0 <= k < |ContactSchema| ensures FieldValid(f, ContactSchema[k], isEmail) {
        }
      }
      if Parse(body, isEmail).Ok? {
        assert FieldValid(f, ContactSchema[0], isEmail) && FieldValid(f, ContactSchema[1], isEmail)
            && FieldValid(f, ContactSchema[2], isEmail) && FieldValid(f, ContactSchema[3], isEmail)
            && FieldValid(f, ContactSchema[4], isEmail);
      }
    }
  }

  /** The issue entry `k` of the schema reports when it fails is among the parse errors. */
  lemma FailingFieldReported(body: Body, isEmail: string -> bool, k: nat)
    requires body.Object? && k < |ContactSchema|
    requires !FieldValid(body.fields, ContactSchema[k], isEmail)
    ensures Parse(body, isEmail).Err?
    ensures FieldIssues(body.fields, ContactSchema[k], isEmail)[0] in Parse(body, isEmail).error
  {
    var f := body.fields;
    var i := FieldIssues(f, ContactSchema[k], isEmail)[0];
    SchemaIssuesCollect(f, ContactSchema, isEmail, i);
  }

  /** An empty first name, last name or subject is rejected with that field's message. */
  lemma EmptyRequiredRejected(body: Body, isEmail: string -> bool, k: nat)
    requires body.Object? && k in {0, 1, 3}
    requires ContactSchema[k].key in body.fields && body.fields[ContactSchema[k].key] == JString("")
    ensures Parse(body, isEmail).Err?
    ensures Issue(Some(ContactSchema[k].key), TooSmall(1), ContactSchema[k].message) in Parse(body, isEmail).error
  {
    FailingFieldReported(body, isEmail, k);
  }

  /** A message shorter than ten characters is rejected, with the schema's message. */
  lemma ShortMessageRejected(body: Body, isEmail: string -> bool)
    requires StringField(body, Message).Some? && |StringField(body, Message).value| < 10
    ensures Parse(body, isEmail).Err?
    ensures Issue(Some(Message), TooSmall(10), "Message must be at least 10 characters") in Parse(body, isEmail).error
  {
    FailingFieldReported(body, isEmail, 4);
  }

  /** A message of exactly ten characters passes the length rule: no issue names the message. */
  lemma TenCharacterMessagePasses(body: Body, isEmail: string -> bool)
    requires StringField(body, Message).Some? && |StringField(body, Message).value| == 10
    ensures Parse(body, isEmail).Err? ==> forall i :: i in Parse(body, isEmail).error ==> i.path != Some(Message)
  {
    var f := body.fields;
    forall i | i in SchemaIssues(f, ContactSchema, isEmail) ensures i.path != Some(Message) {
      SchemaIssuesCollect(f, ContactSchema, isEmail, i);
      var k :| 0 <= k < |ContactSchema| && i in FieldIssues(f, ContactSchema[k], isEmail);
      assert k != 4;
    }
  }

  // ---------------------------------------------------------------------------
  // The two outgoing mails
  // ---------------------------------------------------------------------------

  /** The process environment. */
  type Env = map<string, string>

  /** `process.env[key] || fallback`: an unset or empty variable falls back. */
  function EnvOr(env: Env, key: string, fallback: string): (r: string)
    ensures key in env && env[key] != "" ==> r == env[key]
    ensures key !in env || env[key] == "" ==> r == fallback
    ensures fallback != "" ==> r != ""
  {
    if key in env && env[key] != "" then env[key] else fallback
  }

  const DefaultFrom := "noreply@alexchen.dev"
  const DefaultTo := "alex.chen@example.com"
  const SubjectPrefix := "Portfolio Contact: "

  /**
   * An outgoing mail; `html` is the template its HTML body is rendered from,
   * and `replyTo` is absent on the auto-reply.
   */
  datatype Mail = Mail(from: string, to: string, subject: string, html: seq<Piece>, replyTo: Option<string>)

  /** Number of occurrences of `c` in `s`. */
  function Occurrences(s: string, c: char): nat {
    if s == [] then 0 else (if s[0] == c then 1 else 0) + Occurrences(s[1..], c)
  }

  /** What the rewrite turns one character into. */
  function BrChar(c: char): string {
    if c == '\n' then "<br>" else [c]
  }

  /** `message.replace(/\n/g, '<br>')`: every line feed becomes a `<br>` tag. */
  function BrLines(s: string): (r: string)
    ensures '\n' !in r
    ensures |r| == |s| + 3 * Occurrences(s, '\n')
  {
    if s == [] then []
    else BrChar(s[0]) + BrLines(s[1..])
  }

  /** A message without line feeds is left as it is. */
  lemma {:induction false} BrLinesKeepsSingleLine(s: string)
    requires '\n' !in s
    ensures BrLines(s) == s
  {
    if s != [] {
      assert s[0] != '\n';
      BrLinesKeepsSingleLine(s[1..]);
      assert s == [s[0]] + s[1..];
    }
  }

  /** `s.split('\n')`: the lines of `s`, none containing a line feed. */
  function Lines(s: string): (r: seq<string>)
    ensures |r| == Occurrences(s, '\n') + 1
    ensures forall k :: 0 <= k < |r| ==> '\n' !in r[k]
  {
    if s == [] then [""]
    else
      var rest := Lines(s[1..]);
      if s[0] == '\n' then [""] + rest
      else [[s[0]] + rest[0]] + rest[1..]
  }

  /** `parts.join(sep)`. */
  function Join(parts: seq<string>, sep: string): string
    requires |parts| >= 1
  {
    if |parts| == 1 then parts[0] else parts[0] + sep + Join(parts[1..], sep)
  }

  lemma {:induction false} JoinPrepend(c: char, parts: seq<string>, sep: string)
    requires |parts| >= 1
    ensures Join([[c] + parts[0]] + parts[1..], sep) == [c] + Join(parts, sep)
  {
    var p := [[c] + parts[0]] + parts[1..];
    if |parts| > 1 {
      assert p[1..] == parts[1..];
    }
  }

  /** Splitting at line feeds loses nothing: joining the lines with a line feed gives `s` back. */
  lemma {:induction false} LinesRejoin(s: string)
    ensures Join(Lines(s), "\n") == s
  {
    if s != [] {
      LinesRejoin(s[1..]);
      var rest := Lines(s[1..]);
      if s[0] == '\n' {
        assert ([""] + rest)[1..] == rest;
      } else {
        JoinPrepend(s[0], rest, "\n");
      }
      assert s == [s[0]] + s[1..];
    }
  }

  /**
   * The rewrite keeps the lines of the message as they are, in order, and
   * puts `<br>` where each line feed was: it equals `split('\n').join('<br>')`.
   */
  lemma {:induction false} BrLinesJoinsLines(s: string)
    ensures BrLines(s) == Join(Lines(s), "<br>")
  {
    if s != [] {
      BrLinesJoinsLines(s[1..]);
      var rest := Lines(s[1..]);
      if s[0] == '\n' {
        assert ([""] + rest)[1..] == rest;
      } else {
        JoinPrepend(s[0], rest, "<br>");
      }
    }
  }

  /** The rewrite distributes over concatenation. */
  lemma {:induction false} BrLinesAppend(a: string, b: string)
    ensures BrLines(a + b) == BrLines(a) + BrLines(b)
  {
    if a != [] {
      var ab := a + b;
      assert ab[0] == a[0] && ab[1..] == a[1..] + b;
      BrLinesAppend(a[1..], b);
      assert BrLines(ab) == BrChar(a[0]) + BrLines(a[1..] + b);
    } else {
      assert a + b == b;
    }
  }

  /** The fixed text of the two HTML templates, between the interpolated values. */
  datatype TemplateText =
    | NotifyHead | NameGap | EmailLabel | SubjectLabel | MessageLabel | NotifyTail
    | ReplyHead | ReplyTail

  function Text(t: TemplateText): string {
    match t
    case NotifyHead => "\n          <h2>New Contact Form Submission</h2>\n          <p><strong>Name:</strong> "
    case NameGap => " "
    case EmailLabel => "</p>\n          <p><strong>Email:</strong> "
    case SubjectLabel => "</p>\n          <p><strong>Subject:</strong> "
    case MessageLabel => "</p>\n          <p><strong>Message:</strong></p>\n          <p>"
    case NotifyTail => "</p>\n        "
    case ReplyHead => "\n          <h2>Thank you for your message!</h2>\n          <p>Hi "
    case ReplyTail =>
      ",</p>\n          <p>Thank you for reaching out through my portfolio. I've received your message and will get back to you as soon as possible.</p>\n          <p>Best regards,<br>Alex Chen</p>\n        "
  }

  /** A piece of a template literal: fixed text, or an interpolated value. */
  datatype Piece = Fixed(text: TemplateText) | Value(s: string)

  /** The string a template evaluates to, given the fixed text of each piece. */
  function Render(pieces: seq<Piece>, text: TemplateText -> string): string {
    if pieces == [] then []
    else PieceText(pieces[0], text) + Render(pieces[1..], text)
  }

  function PieceText(p: Piece, text: TemplateText -> string): string {
    match p
    case Fixed(t) => text(t)
    case Value(v) => v
  }

  /** The HTML string a mail carries. */
  function Html(m: Mail): string {
    Render(m.html, Text)
  }

  /** `t` occurs in `s` starting at position `i`. */
  predicate OccursAt(s: string, t: string, i: int) {
    0 <= i <= |s| - |t| && s[i..i + |t|] == t
  }

  /** `t` occurs as a contiguous block in `s`. */
  predicate Contains(s: string, t: string) {
    exists i :: 0 <= i <= |s| - |t| && OccursAt(s, t, i)
  }

  /** Whatever stands between a prefix and a suffix is contained in the whole. */
  lemma ContainsMiddle(a: string, t: string, b: string)
    ensures Contains(a + t + b, t)
  {
    assert OccursAt(a + t + b, t, |a|);
  }

  lemma ContainsAfter(a: string, b: string, t: string)
    requires Contains(b, t)
    ensures Contains(a + b, t)
  {
    var i :| 0 <= i <= |b| - |t| && OccursAt(b, t, i);
    assert (a + b)[|a| + i..|a| + i + |t|] == b[i..i + |t|];
    assert OccursAt(a + b, t, |a| + i);
  }

  /** Every interpolated value occurs, unchanged, in the rendered string. */
  lemma {:induction false} RenderContainsValue(pieces: seq<Piece>, text: TemplateText -> string, k: nat)
    requires k < |pieces| && pieces[k].Value?
    ensures Contains(Render(pieces, text), pieces[k].s)
  {
    var head := PieceText(pieces[0], text);
    var tail := Render(pieces[1..], text);
    assert Render(pieces, text) == head + tail;
    if k == 0 {
      ContainsMiddle([], pieces[0].s, tail);
      assert [] + pieces[0].s + tail == Render(pieces, text);
    } else {
      RenderContainsValue(pieces[1..], text, k - 1);
      ContainsAfter(head, tail, pieces[k].s);
    }
  }

  /** The notification body: name, e-mail, subject, and the message with `<br>` for line feeds. */
  function NotificationBody(d: ContactData): seq<Piece> {
    [ Fixed(NotifyHead), Value(d.firstName), Fixed(NameGap), Value(d.lastName),
      Fixed(EmailLabel), Value(d.email), Fixed(SubjectLabel), Value(d.subject),
      Fixed(MessageLabel), Value(BrLines(d.message)), Fixed(NotifyTail) ]
  }

  /** The notification to the site owner (`mailOptions`). */
  function Notification(d: ContactData, env: Env): (r: Mail)
    ensures "FROM_EMAIL" in env && env["FROM_EMAIL"] != "" ==> r.from == env["FROM_EMAIL"]
    ensures "FROM_EMAIL" !in env || env["FROM_EMAIL"] == "" ==> r.from == DefaultFrom
    ensures "TO_EMAIL" in env && env["TO_EMAIL"] != "" ==> r.to == env["TO_EMAIL"]
    ensures "TO_EMAIL" !in env || env["TO_EMAIL"] == "" ==> r.to == DefaultTo
    ensures r.replyTo == Some(d.email)
  {
    Mail(EnvOr(env, "FROM_EMAIL", DefaultFrom), EnvOr(env, "TO_EMAIL", DefaultTo),
         SubjectPrefix + d.subject, NotificationBody(d), Some(d.email))
  }

  /** The auto-reply body, which greets the submitter by first name. */
  function AutoReplyBody(d: ContactData): seq<Piece> {
    [ Fixed(ReplyHead), Value(d.firstName), Fixed(ReplyTail) ]
  }

  /** The auto-reply to the submitter (`autoReplyOptions`). */
  function AutoReply(d: ContactData, env: Env): (r: Mail)
    ensures r.to == d.email
    ensures r.from == Notification(d, env).from
    ensures r.replyTo.None?
  {
    Mail(EnvOr(env, "FROM_EMAIL", DefaultFrom), d.email, "Thanks for reaching out!", AutoReplyBody(d), None)
  }

  /** The submitted subject, recovered from a notification subject line. */
  function SubmittedSubject(line: string): Option<string> {
    if |line| >= |SubjectPrefix| && line[..|SubjectPrefix|] == SubjectPrefix
    then Some(line[|SubjectPrefix|..]) else None
  }

  /**
   * The notification's subject is the prefix followed by the submitted
   * subject, which can be read back from it.
   */
  lemma NotificationSubject(d: ContactData, env: Env)
    ensures SubmittedSubject(Notification(d, env).subject) == Some(d.subject)
  {
    var line := SubjectPrefix + d.subject;
    assert line[..|SubjectPrefix|] == SubjectPrefix;
    assert line[|SubjectPrefix|..] == d.subject;
  }

  /** The rendered auto-reply greets the submitter by first name. */
  lemma AutoReplyGreets(d: ContactData, env: Env)
    ensures Contains(Html(AutoReply(d, env)), d.firstName)
  {
    RenderContainsValue(AutoReplyBody(d), Text, 1);
  }

  /**
   * The rendered notification carries every submitted field; the message
   * appears in its rewritten form.
   */
  lemma NotificationCarriesSubmission(d: ContactData, env: Env)
    ensures var html := Html(Notification(d, env));
      && Contains(html, d.firstName) && Contains(html, d.lastName) && Contains(html, d.email)
      && Contains(html, d.subject) && Contains(html, BrLines(d.message))
  {
    var body := NotificationBody(d);
    var html := Render(body, Text);
    assert Html(Notification(d, env)) == html;
    assert Contains(html, d.firstName) by { RenderContainsValue(body, Text, 1); }
    assert Contains(html, d.lastName) by { RenderContainsValue(body, Text, 3); }
    assert Contains(html, d.email) by { RenderContainsValue(body, Text, 5); }
    assert Contains(html, d.subject) by { RenderContainsValue(body, Text, 7); }
    assert Contains(html, BrLines(d.message)) by { RenderContainsValue(body, Text, 9); }
  }

  // ---------------------------------------------------------------------------
  // The handler
  // ---------------------------------------------------------------------------

  /** The JSON response and its status; `errors` is present only on a validation failure. */
  datatype Response = Response(status: nat, success: bool, message: string, errors: Option<seq<Issue>>)

  const SentResponse := Response(200, true, "Message sent successfully!", None)
  const SendFailedResponse := Response(500, false, "Failed to send message. Please try again.", None)

  /**
   * The `/api/contact` handler. `delivers(m)` says whether the transport
   * accepts mail `m`; `attempted` lists the mails handed to the transport,
   * in the order the sends are started.
   */
  method HandleContact(body: Body, env: Env, isEmail: string -> bool, delivers: Mail -> bool)
    returns (resp: Response, attempted: seq<Mail>)
    ensures resp.success <==> resp.status == 200
    ensures Parse(body, isEmail).Err? ==>
      resp == Response(400, false, "Validation error", Some(Parse(body, isEmail).error)) && attempted == []
    ensures Parse(body, isEmail).Ok? ==>
      var d := Parse(body, isEmail).value;
      && attempted == [Notification(d, env), AutoReply(d, env)]
      && resp == (if delivers(attempted[0]) && delivers(attempted[1]) then SentResponse else SendFailedResponse)
  {
    var parsed := Parse(body, isEmail);
    if parsed.Err? {
      return Response(400, false, "Validation error", Some(parsed.error)), [];
    }
    var data := parsed.value;
    var mailOptions := Notification(data, env);
    var autoReplyOptions := AutoReply(data, env);
    // Both sends are started before either is awaited, so both are attempted.
    var mailSent := delivers(mailOptions);
    var replySent := delivers(autoReplyOptions);
    attempted := [mailOptions, autoReplyOptions];
    if mailSent && replySent {
      resp := SentResponse;
    } else {
      resp := SendFailedResponse;
    }
  }

  /** The three outcomes: 400 exactly on invalid bodies, otherwise 200 or 500 according to delivery. */
  lemma HandlerOutcomes(body: Body, env: Env, isEmail: string -> bool, resp: Response, attempted: seq<Mail>, delivers: Mail -> bool)
    requires Parse(body, isEmail).Err? ==>
      resp == Response(400, false, "Validation error", Some(Parse(body, isEmail).error)) && attempted == []
    requires Parse(body, isEmail).Ok? ==>
      var d := Parse(body, isEmail).value;
      && attempted == [Notification(d, env), AutoReply(d, env)]
      && resp == (if delivers(attempted[0]) && delivers(attempted[1]) then SentResponse else SendFailedResponse)
    ensures resp.status == 400 <==> !WellFormed(body, isEmail)
    ensures resp.status == 400 ==> attempted == []
    ensures WellFormed(body, isEmail) ==> |attempted| == 2 && attempted[1].to == StringField(body, Email).value
    ensures resp.status == 200 <==> WellFormed(body, isEmail) && delivers(attempted[0]) && delivers(attempted[1])
    ensures resp.status in {200, 400, 500}
  {
    ParseAcceptsExactly(body, isEmail);
  }
}
