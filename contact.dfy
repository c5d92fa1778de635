/** The contact-form endpoint (`POST /api/contact`): the request body is
    validated against the contact schema, a notification email is composed
    from the escaped fields, handed to the email provider, and one of four
    JSON responses is chosen.

    The JSON parser, the email-format check of the schema library and the
    email provider are not part of the model: the parse outcome and the
    provider outcome are parameters, and the email grammar is the parameter
    `isEmail`. */
module Contact {
  import opened Wrappers
  import opened Text
  import opened HtmlEscape

  // ---------------------------------------------------------------------
  // The request body, as far as the schema looks at it
  // ---------------------------------------------------------------------

  /** A JSON member value: a string, or anything else, named by the type the
      schema library reports (`number`, `null`, `array`, ...). */
  datatype JsonValue = JString(s: string) | JNonString(typeName: string)

  /** The parsed body: an object (absent keys are undefined) or some other
      JSON value. */
  datatype RequestBody =
    | JsonObject(members: map<string, JsonValue>)
    | JsonNonObject(typeName: string)

  // ---------------------------------------------------------------------
  // The schema: one rule per key, in declaration order
  // ---------------------------------------------------------------------

  datatype Rule =
    | MinLength(min: nat, message: string)   // z.string().min(n, { message })
    | EmailFormat(message: string)           // z.string().email({ message })
    | OptionalText                           // z.string().optional()

  datatype FieldRule = FieldRule(key: string, rule: Rule)

  const NameRequiredMessage: string := "お名前を入力してください"
  const EmailInvalidMessage: string := "有効なメールアドレスを入力してください"
  const MessageTooShortMessage: string := "お問い合わせ内容は10文字以上で入力してください"

  const ContactSchema: seq<FieldRule> := [
    FieldRule("name", MinLength(1, NameRequiredMessage)),
    FieldRule("email", EmailFormat(EmailInvalidMessage)),
    FieldRule("company", OptionalText),
    FieldRule("message", MinLength(10, MessageTooShortMessage)),
    FieldRule("deadline", OptionalText),
    FieldRule("budget", OptionalText)
  ]

  /** The schema library's own wording for a missing value and for a value
      of the wrong JSON type. */
  const RequiredMessage: string := "Required"

  function ExpectedMessage(expected: string, received: string): string {
    "Expected " + expected + ", received " + received
  }

  /** One entry of the `errors` array of a 400 response. */
  datatype FieldError = FieldError(field: string, message: string)

  /** `issue.path.join('.')`. */
  function PathText(path: seq<string>): string {
    if path == [] then "" else Join(path, ".")
  }

  /** The issue message a rule raises for one member value, if any. A
      non-string value is rejected even by an optional rule; a missing value
      only by a required one. */
  function CheckValue(rule: Rule, v: Option<JsonValue>, isEmail: string -> bool): (r: Option<string>)
    ensures v.None? ==> (r.Some? <==> !rule.OptionalText?) && (r.Some? ==> r.value == RequiredMessage)
    ensures v.Some? && v.value.JNonString? ==> r == Some(ExpectedMessage("string", v.value.typeName))
    ensures v.Some? && v.value.JString? && r.Some? ==> !rule.OptionalText? && r.value == rule.message
    ensures rule.OptionalText? && r.Some? ==> v.Some? && v.value.JNonString?
  {
    match v
    case None => if rule.OptionalText? then None else Some(RequiredMessage)
    case Some(JNonString(t)) => Some(ExpectedMessage("string", t))
    case Some(JString(s)) =>
      match rule
      case MinLength(n, m) => if |s| < n then Some(m) else None
      case EmailFormat(m) => if isEmail(s) then None else Some(m)
      case OptionalText => None
  }

  function Member(members: map<string, JsonValue>, key: string): Option<JsonValue> {
    if key in members then Some(members[key]) else None
  }

  /** The issues one rule raises: none or one, its path being the key. */
  function RuleIssues(rule: FieldRule, members: map<string, JsonValue>, isEmail: string -> bool): seq<FieldError> {
    match CheckValue(rule.rule, Member(members, rule.key), isEmail)
    case Some(m) => [FieldError(PathText([rule.key]), m)]
    case None => []
  }

  /** All issues of an object body, rule by rule, without stopping at the
      first one. */
  function ObjectIssues(rules: seq<FieldRule>, members: map<string, JsonValue>, isEmail: string -> bool): (r: seq<FieldError>)
    ensures |r| <= |rules|
  {
    if rules == [] then [] else RuleIssues(rules[0], members, isEmail) + ObjectIssues(rules[1..], members, isEmail)
  }

  /** `contactSchema.safeParse(body).error.issues`, mapped to field errors
      (empty when the body is accepted). */
  function Validate(body: RequestBody, isEmail: string -> bool): (r: seq<FieldError>)
    ensures |r| <= |ContactSchema|
    ensures body.JsonNonObject? ==> |r| == 1 && r[0].field == "" && r[0].message == ExpectedMessage("object", body.typeName)
  {
    match body
    case JsonNonObject(t) => [FieldError(PathText([]), ExpectedMessage("object", t))]
    case JsonObject(m) => ObjectIssues(ContactSchema, m, isEmail)
  }

  // ---------------------------------------------------------------------
  // The acceptance condition, stated field by field
  // ---------------------------------------------------------------------

  predicate IsText(m: map<string, JsonValue>, key: string) {
    key in m && m[key].JString?
  }

  /** Whether the schema rejects the value stored under `key`. */
  predicate RuleFails(m: map<string, JsonValue>, key: string, isEmail: string -> bool) {
    if key == "name" then !(IsText(m, key) && |m[key].s| >= 1)
    else if key == "email" then !(IsText(m, key) && isEmail(m[key].s))
    else if key == "message" then !(IsText(m, key) && |m[key].s| >= 10)
    else if key == "company" || key == "deadline" || key == "budget" then key in m && !IsText(m, key)
    else false
  }

  predicate Accepts(body: RequestBody, isEmail: string -> bool) {
    && body.JsonObject?
    && IsText(body.members, "name") && |body.members["name"].s| >= 1
    && IsText(body.members, "email") && isEmail(body.members["email"].s)
    && IsText(body.members, "message") && |body.members["message"].s| >= 10
    && ("company" in body.members ==> IsText(body.members, "company"))
    && ("deadline" in body.members ==> IsText(body.members, "deadline"))
    && ("budget" in body.members ==> IsText(body.members, "budget"))
  }

  function FieldsOf(errors: seq<FieldError>): seq<string> {
    if errors == [] then [] else [errors[0].field] + FieldsOf(errors[1..])
  }

  const SchemaKeys: seq<string> := ["name", "email", "company", "message", "deadline", "budget"]

  function KeysOf(rules: seq<FieldRule>): seq<string> {
    if rules == [] then [] else [rules[0].key] + KeysOf(rules[1..])
  }

  /** The keys of `keys` that `fails` selects, in order. */
  function KeysWhere(keys: seq<string>, fails: string -> bool): seq<string> {
    if keys == [] then [] else (if fails(keys[0]) then [keys[0]] else []) + KeysWhere(keys[1..], fails)
  }

  lemma {:induction false} KeysWhereEmpty(keys: seq<string>, fails: string -> bool)
    ensures KeysWhere(keys, fails) == [] <==> forall k :: 0 <= k < |keys| ==> !fails(keys[k])
    decreases |keys|
  {
    if keys != [] {
      KeysWhereEmpty(keys[1..], fails);
      assert forall k :: 1 <= k < |keys| ==> keys[k] == keys[1..][k - 1];
    }
  }

  lemma {:induction false} FieldsOfAppend(a: seq<FieldError>, b: seq<FieldError>)
    ensures FieldsOf(a + b) == FieldsOf(a) + FieldsOf(b)
    decreases |a|
  {
    if a == [] {
      assert a + b == b;
    } else {
      assert (a + b)[1..] == a[1..] + b;
      FieldsOfAppend(a[1..], b);
    }
  }

  /** Each schema rule raises an issue exactly when `RuleFails` says so, and
      the issue's field is the rule's key. */
  lemma RuleIssuesFollowRuleFails(rule: FieldRule, m: map<string, JsonValue>, isEmail: string -> bool)
    requires rule in ContactSchema
    ensures FieldsOf(RuleIssues(rule, m, isEmail)) == if RuleFails(m, rule.key, isEmail) then [rule.key] else []
  {
    assert Join([rule.key], ".") == rule.key;
  }

  lemma {:induction false} IssueFieldsAreFailingKeys(rules: seq<FieldRule>, m: map<string, JsonValue>, isEmail: string -> bool)
    requires forall k :: 0 <= k < |rules| ==> rules[k] in ContactSchema
    ensures FieldsOf(ObjectIssues(rules, m, isEmail)) == KeysWhere(KeysOf(rules), k => RuleFails(m, k, isEmail))
    decreases |rules|
  {
    if rules != [] {
      RuleIssuesFollowRuleFails(rules[0], m, isEmail);
      FieldsOfAppend(RuleIssues(rules[0], m, isEmail), ObjectIssues(rules[1..], m, isEmail));
      IssueFieldsAreFailingKeys(rules[1..], m, isEmail);
    }
  }

  lemma SchemaKeysInOrder()
    ensures KeysOf(ContactSchema) == SchemaKeys
  {
    var s := ContactSchema;
    assert KeysOf(s[5..]) == ["budget"] by { assert s[5..][1..] == []; }
    assert KeysOf(s[4..]) == ["deadline", "budget"] by { assert s[4..][1..] == s[5..]; }
    assert KeysOf(s[3..]) == ["message", "deadline", "budget"] by { assert s[3..][1..] == s[4..]; }
    assert KeysOf(s[2..]) == ["company", "message", "deadline", "budget"] by { assert s[2..][1..] == s[3..]; }
    assert KeysOf(s[1..]) == ["email", "company", "message", "deadline", "budget"] by { assert s[1..][1..] == s[2..]; }
  }

  /** An object body yields one error per failing rule, and their fields are
      the failing keys in schema order: name, email, company, message,
      deadline, budget. */
  lemma ErrorFieldsInSchemaOrder(m: map<string, JsonValue>, isEmail: string -> bool)
    ensures FieldsOf(Validate(JsonObject(m), isEmail)) == KeysWhere(SchemaKeys, k => RuleFails(m, k, isEmail))
  {
    var rules := ContactSchema;
    assert forall k :: 0 <= k < |rules| ==> rules[k] in ContactSchema;
    IssueFieldsAreFailingKeys(rules, m, isEmail);
    assert Validate(JsonObject(m), isEmail) == ObjectIssues(rules, m, isEmail);
    SchemaKeysInOrder();
  }

  lemma FieldsOfEmpty(errors: seq<FieldError>)
    ensures FieldsOf(errors) == [] <==> errors == []
  {
  }

  /** A body is accepted (no issue at all) exactly when it is an object whose
      name is a non-empty string, whose email is a string the email grammar
      accepts, whose message has at least ten characters, and whose optional
      members are strings when present. */
  lemma ValidateEmptyIffAccepted(body: RequestBody, isEmail: string -> bool)
    ensures Validate(body, isEmail) == [] <==> Accepts(body, isEmail)
  {
    if body.JsonObject? {
      var m := body.members;
      var fails := k => RuleFails(m, k, isEmail);
      ErrorFieldsInSchemaOrder(m, isEmail);
      FieldsOfEmpty(Validate(body, isEmail));
      KeysWhereEmpty(SchemaKeys, fails);
      EverySchemaKey(k => !RuleFails(m, k, isEmail));
    }
  }

  lemma EverySchemaKey(p: string -> bool)
    ensures (forall k :: 0 <= k < |SchemaKeys| ==> p(SchemaKeys[k]))
        <==> p("name") && p("email") && p("company") && p("message") && p("deadline") && p("budget")
  {
    var ks := SchemaKeys;
    assert ks[0] == "name" && ks[1] == "email" && ks[2] == "company";
    assert ks[3] == "message" && ks[4] == "deadline" && ks[5] == "budget";
  }

  /** `company`, `deadline` and `budget` never cause a rejection as long as
      they are strings or left out: then only name, email and message can
      appear among the error fields. */
  lemma OptionalTextNeverRejects(m: map<string, JsonValue>, isEmail: string -> bool)
    requires "company" in m ==> IsText(m, "company")
    requires "deadline" in m ==> IsText(m, "deadline")
    requires "budget" in m ==> IsText(m, "budget")
    ensures forall e :: e in Validate(JsonObject(m), isEmail) ==> e.field in ["name", "email", "message"]
  {
    var errors := Validate(JsonObject(m), isEmail);
    ErrorFieldsInSchemaOrder(m, isEmail);
    var fails := k => RuleFails(m, k, isEmail);
    forall e | e in errors ensures e.field in ["name", "email", "message"] {
      FieldInFieldsOf(errors, e);
      KeysWhereSelected(SchemaKeys, fails, e.field);
      OnlyRequiredKeysFail(m, isEmail, e.field);
    }
  }

  lemma OnlyRequiredKeysFail(m: map<string, JsonValue>, isEmail: string -> bool, key: string)
    requires "company" in m ==> IsText(m, "company")
    requires "deadline" in m ==> IsText(m, "deadline")
    requires "budget" in m ==> IsText(m, "budget")
    requires RuleFails(m, key, isEmail)
    ensures key in ["name", "email", "message"]
  {
  }

  lemma {:induction false} FieldInFieldsOf(errors: seq<FieldError>, e: FieldError)
    requires e in errors
    ensures e.field in FieldsOf(errors)
    decreases |errors|
  {
    if errors[0] != e {
      FieldInFieldsOf(errors[1..], e);
    }
  }

  lemma {:induction false} KeysWhereSelected(keys: seq<string>, fails: string -> bool, key: string)
    requires key in KeysWhere(keys, fails)
    ensures key in keys && fails(key)
    decreases |keys|
  {
    if !(fails(keys[0]) && key == keys[0]) {
      KeysWhereSelected(keys[1..], fails, key);
    }
  }

  /** The messages of the three required rules, for string values that fail
      them. */
  lemma RequiredRuleMessages(m: map<string, JsonValue>, isEmail: string -> bool)
    ensures IsText(m, "name") && m["name"].s == "" ==>
      FieldError("name", NameRequiredMessage) in Validate(JsonObject(m), isEmail)
    ensures IsText(m, "email") && !isEmail(m["email"].s) ==>
      FieldError("email", EmailInvalidMessage) in Validate(JsonObject(m), isEmail)
    ensures IsText(m, "message") && |m["message"].s| < 10 ==>
      FieldError("message", MessageTooShortMessage) in Validate(JsonObject(m), isEmail)
  {
    RuleIssueInValidate(0, m, isEmail);
    RuleIssueInValidate(1, m, isEmail);
    RuleIssueInValidate(3, m, isEmail);
  }

  lemma {:induction false} ObjectIssuesAppend(a: seq<FieldRule>, b: seq<FieldRule>, m: map<string, JsonValue>, isEmail: string -> bool)
    ensures ObjectIssues(a + b, m, isEmail) == ObjectIssues(a, m, isEmail) + ObjectIssues(b, m, isEmail)
    decreases |a|
  {
    if a == [] {
      assert a + b == b;
    } else {
      assert (a + b)[0] == a[0] && (a + b)[1..] == a[1..] + b;
      ObjectIssuesAppend(a[1..], b, m, isEmail);
    }
  }

  lemma RuleIssueInValidate(k: nat, m: map<string, JsonValue>, isEmail: string -> bool)
    requires k < |ContactSchema|
    ensures forall e :: e in RuleIssues(ContactSchema[k], m, isEmail) ==> e in Validate(JsonObject(m), isEmail)
  {
    var s := ContactSchema;
    assert s == s[..k] + [s[k]] + s[k + 1..];
    ObjectIssuesAppend(s[..k], [s[k]], m, isEmail);
    ObjectIssuesAppend(s[..k] + [s[k]], s[k + 1..], m, isEmail);
    assert ObjectIssues([s[k]], m, isEmail) == RuleIssues(s[k], m, isEmail) + ObjectIssues([], m, isEmail);
    assert Join([s[k].key], ".") == s[k].key;
  }

  // ---------------------------------------------------------------------
  // The validated submission
  // ---------------------------------------------------------------------

  datatype Submission = Submission(
    name: string,
    email: string,
    company: Option<string>,
    message: string,
    deadline: Option<string>,
    budget: Option<string>)

  predicate IsValidSubmission(sub: Submission, isEmail: string -> bool) {
    |sub.name| >= 1 && isEmail(sub.email) && |sub.message| >= 10
  }

  function OptionalMember(m: map<string, JsonValue>, key: string): Option<string>
    requires key in m ==> IsText(m, key)
  {
    if key in m then Some(m[key].s) else None
  }

  /** `contactSchema.safeParse(body)`: the typed submission, or every issue. */
  function SafeParse(body: RequestBody, isEmail: string -> bool): (r: Result<Submission, seq<FieldError>>)
    ensures r.Ok? <==> Accepts(body, isEmail)
    ensures r.Ok? ==> IsValidSubmission(r.value, isEmail)
    ensures r.Ok? ==> (r.value.name == body.members["name"].s
                       && r.value.email == body.members["email"].s
                       && r.value.message == body.members["message"].s
                       && r.value.company == OptionalMember(body.members, "company")
                       && r.value.deadline == OptionalMember(body.members, "deadline")
                       && r.value.budget == OptionalMember(body.members, "budget"))
    ensures r.Err? ==> r.error == Validate(body, isEmail) && r.error != []
  {
    ValidateEmptyIffAccepted(body, isEmail);
    var errors := Validate(body, isEmail);
    if errors != [] then Err(errors)
    else
      var m := body.members;
      Ok(Submission(m["name"].s, m["email"].s, OptionalMember(m, "company"), m["message"].s,
                    OptionalMember(m, "deadline"), OptionalMember(m, "budget")))
  }

  // ---------------------------------------------------------------------
  // The notification email
  // ---------------------------------------------------------------------

  /** One labelled block of the body: label, raw value, and the CSS class of
      the value box. */
  datatype Section = Section(heading: string, value: string, valueClass: string)

  const NameLabel: string := "お名前"
  const EmailLabel: string := "メールアドレス"
  const CompanyLabel: string := "会社名"
  const DeadlineLabel: string := "ご希望納期"
  const BudgetLabel: string := "予算感"
  const MessageLabel: string := "お問い合わせ内容"

  const ValueClass: string := "field-value"
  const MessageValueClass: string := "field-value message-content"

  function OptionalSection(heading: string, v: Option<string>): seq<Section> {
    if IsSet(v) then [Section(heading, v.value, ValueClass)] else []
  }

  /** The blocks of the body, in template order. */
  function Sections(sub: Submission): seq<Section> {
    [Section(NameLabel, sub.name, ValueClass), Section(EmailLabel, sub.email, ValueClass)]
    + OptionalSection(CompanyLabel, sub.company)
    + OptionalSection(DeadlineLabel, sub.deadline)
    + OptionalSection(BudgetLabel, sub.budget)
    + [Section(MessageLabel, sub.message, MessageValueClass)]
  }

  /** A block of the template; the value is always interpolated escaped. */
  function RenderSection(sec: Section): string {
    "<div class=\"field\"><div class=\"field-label\">" + sec.heading + "</div><div class=\""
    + sec.valueClass + "\">" + EscapeHtml(sec.value) + "</div></div>"
  }

  function RenderSections(secs: seq<Section>): string {
    if secs == [] then [] else RenderSection(secs[0]) + RenderSections(secs[1..])
  }

  /** The fixed text before the blocks. The style sheet's rules and the
      template's indentation are not reproduced. */
  const DocumentHead: string :=
    "<!DOCTYPE html><html><head><meta charset=\"utf-8\"><style></style></head><body>"
    + "<div class=\"container\"><div class=\"header\"><h1>新しいお問い合わせ</h1></div><div class=\"content\">"

  const DocumentFoot: string :=
    "<div class=\"footer\">このメールはポートフォリオサイトのお問い合わせフォームから送信されました。</div>"
    + "</div></div></body></html>"

  function ComposeBody(sub: Submission): (html: string)
    ensures DocumentHead <= html
    ensures |DocumentFoot| <= |html| && html[|html| - |DocumentFoot|..] == DocumentFoot
  {
    var html := DocumentHead + RenderSections(Sections(sub)) + DocumentFoot;
    assert html[|html| - |DocumentFoot|..] == DocumentFoot;
    html
  }

  /** A block followed by more text shows the block's escaped value. */
  lemma BlockShowsValue(sec: Section, rest: string)
    ensures Contains(RenderSection(sec) + rest, EscapeHtml(sec.value))
  {
    var x := EscapeHtml(sec.value);
    var open := "<div class=\"field\"><div class=\"field-label\">" + sec.heading + "</div><div class=\""
                + sec.valueClass + "\">";
    var close := "</div></div>";
    assert RenderSection(sec) == open + x + close;
    ContainsSelf(x);
    ContainsWithin(open, x, close + rest, x);
    assert RenderSection(sec) + rest == open + x + (close + rest);
  }

  /** Each block's value appears, escaped, in the rendered blocks. */
  lemma {:induction false} RenderedValueOccurs(secs: seq<Section>, k: nat)
    requires k < |secs|
    ensures Contains(RenderSections(secs), EscapeHtml(secs[k].value))
  {
    var rest := RenderSections(secs[1..]);
    assert RenderSections(secs) == RenderSection(secs[0]) + rest;
    if k == 0 {
      BlockShowsValue(secs[0], rest);
    } else {
      var x := EscapeHtml(secs[k].value);
      assert secs[1..][k - 1] == secs[k];
      RenderedValueOccurs(secs[1..], k - 1);
      ContainsWithin(RenderSection(secs[0]), rest, [], x);
      assert RenderSection(secs[0]) + rest + [] == RenderSection(secs[0]) + rest;
    }
  }

  /** The mail body shows the escaped name, email and message, and the
      escaped value of every optional field that is set. */
  lemma ComposeBodyShowsFields(sub: Submission)
    ensures Contains(ComposeBody(sub), EscapeHtml(sub.name))
    ensures Contains(ComposeBody(sub), EscapeHtml(sub.email))
    ensures Contains(ComposeBody(sub), EscapeHtml(sub.message))
    ensures IsSet(sub.company) ==> Contains(ComposeBody(sub), EscapeHtml(sub.company.value))
    ensures IsSet(sub.deadline) ==> Contains(ComposeBody(sub), EscapeHtml(sub.deadline.value))
    ensures IsSet(sub.budget) ==> Contains(ComposeBody(sub), EscapeHtml(sub.budget.value))
  {
    var secs := Sections(sub);
    SectionsPresence(sub);
    forall k | 0 <= k < |secs|
      ensures Contains(ComposeBody(sub), EscapeHtml(secs[k].value))
    {
      RenderedValueOccurs(secs, k);
      ContainsWithin(DocumentHead, RenderSections(secs), DocumentFoot, EscapeHtml(secs[k].value));
    }
  }

  function PresentCount(sub: Submission): nat {
    (if IsSet(sub.company) then 1 else 0) + (if IsSet(sub.deadline) then 1 else 0)
    + (if IsSet(sub.budget) then 1 else 0)
  }

  predicate HasSection(secs: seq<Section>, heading: string, value: string) {
    exists k :: 0 <= k < |secs| && secs[k].heading == heading && secs[k].value == value
  }

  predicate HasLabel(secs: seq<Section>, heading: string) {
    exists k :: 0 <= k < |secs| && secs[k].heading == heading
  }

  /** The name, email and message blocks are always there (first, second,
      last); each optional block is there exactly when its field is set,
      and then it carries that field's value. */
  lemma SectionsPresence(sub: Submission)
    ensures |Sections(sub)| == 3 + PresentCount(sub)
    ensures Sections(sub)[0] == Section(NameLabel, sub.name, ValueClass)
    ensures Sections(sub)[1] == Section(EmailLabel, sub.email, ValueClass)
    ensures Sections(sub)[|Sections(sub)| - 1] == Section(MessageLabel, sub.message, MessageValueClass)
    ensures HasLabel(Sections(sub), CompanyLabel) <==> IsSet(sub.company)
    ensures HasLabel(Sections(sub), DeadlineLabel) <==> IsSet(sub.deadline)
    ensures HasLabel(Sections(sub), BudgetLabel) <==> IsSet(sub.budget)
    ensures IsSet(sub.company) ==> HasSection(Sections(sub), CompanyLabel, sub.company.value)
    ensures IsSet(sub.deadline) ==> HasSection(Sections(sub), DeadlineLabel, sub.deadline.value)
    ensures IsSet(sub.budget) ==> HasSection(Sections(sub), BudgetLabel, sub.budget.value)
    ensures Labels(Sections(sub)) == [NameLabel, EmailLabel]
      + (if IsSet(sub.company) then [CompanyLabel] else [])
      + (if IsSet(sub.deadline) then [DeadlineLabel] else [])
      + (if IsSet(sub.budget) then [BudgetLabel] else [])
      + [MessageLabel]
  {
    SectionsLayout(sub);
    SectionsLabels(sub);
    SectionsOrder(sub);
  }

  /** The labels of the blocks, in order. */
  function Labels(secs: seq<Section>): seq<string> {
    seq(|secs|, i requires 0 <= i < |secs| => secs[i].heading)
  }

  lemma LabelsAppend(a: seq<Section>, b: seq<Section>)
    ensures Labels(a + b) == Labels(a) + Labels(b)
  {
  }

  /** The blocks follow the template: name, email, then company, deadline
      and budget each when set, then the message. */
  lemma SectionsOrder(sub: Submission)
    ensures Labels(Sections(sub)) == [NameLabel, EmailLabel]
      + (if IsSet(sub.company) then [CompanyLabel] else [])
      + (if IsSet(sub.deadline) then [DeadlineLabel] else [])
      + (if IsSet(sub.budget) then [BudgetLabel] else [])
      + [MessageLabel]
  {
    var head := [Section(NameLabel, sub.name, ValueClass), Section(EmailLabel, sub.email, ValueClass)];
    var c := OptionalSection(CompanyLabel, sub.company);
    var d := OptionalSection(DeadlineLabel, sub.deadline);
    var b := OptionalSection(BudgetLabel, sub.budget);
    var m := [Section(MessageLabel, sub.message, MessageValueClass)];
    LabelsAppend(head, c);
    LabelsAppend(head + c, d);
    LabelsAppend(head + c + d, b);
    LabelsAppend(head + c + d + b, m);
    assert Labels(head) == [NameLabel, EmailLabel];
    assert Labels(m) == [MessageLabel];
  }

  lemma SectionsLayout(sub: Submission)
    ensures |Sections(sub)| == 3 + PresentCount(sub)
    ensures Sections(sub)[0] == Section(NameLabel, sub.name, ValueClass)
    ensures Sections(sub)[1] == Section(EmailLabel, sub.email, ValueClass)
    ensures Sections(sub)[|Sections(sub)| - 1] == Section(MessageLabel, sub.message, MessageValueClass)
    ensures IsSet(sub.company) ==> HasSection(Sections(sub), CompanyLabel, sub.company.value)
    ensures IsSet(sub.deadline) ==> HasSection(Sections(sub), DeadlineLabel, sub.deadline.value)
    ensures IsSet(sub.budget) ==> HasSection(Sections(sub), BudgetLabel, sub.budget.value)
  {
    var c := OptionalSection(CompanyLabel, sub.company);
    var d := OptionalSection(DeadlineLabel, sub.deadline);
    var b := OptionalSection(BudgetLabel, sub.budget);
    var secs := Sections(sub);
    var n := 2 + |c|;
    if IsSet(sub.company) { assert secs[2] == c[0]; }
    if IsSet(sub.deadline) { assert secs[n] == d[0]; }
    if IsSet(sub.budget) { assert secs[n + |d|] == b[0]; }
  }

  lemma SectionsLabels(sub: Submission)
    ensures HasLabel(Sections(sub), CompanyLabel) <==> IsSet(sub.company)
    ensures HasLabel(Sections(sub), DeadlineLabel) <==> IsSet(sub.deadline)
    ensures HasLabel(Sections(sub), BudgetLabel) <==> IsSet(sub.budget)
  {
    LabelsDistinct();
    var head := [Section(NameLabel, sub.name, ValueClass), Section(EmailLabel, sub.email, ValueClass)];
    var c := OptionalSection(CompanyLabel, sub.company);
    var d := OptionalSection(DeadlineLabel, sub.deadline);
    var b := OptionalSection(BudgetLabel, sub.budget);
    var last := [Section(MessageLabel, sub.message, MessageValueClass)];
    var secs := Sections(sub);
    assert secs == head + c + (d + b + last);
    LabelIffPresent(head, c, d + b + last, CompanyLabel);
    assert secs == (head + c) + d + (b + last);
    LabelIffPresent(head + c, d, b + last, DeadlineLabel);
    assert secs == (head + c + d) + b + last;
    LabelIffPresent(head + c + d, b, last, BudgetLabel);
  }

  /** The optional labels differ from every other label. */
  lemma LabelsDistinct()
    ensures CompanyLabel !in {NameLabel, EmailLabel, DeadlineLabel, BudgetLabel, MessageLabel}
    ensures DeadlineLabel !in {NameLabel, EmailLabel, BudgetLabel, MessageLabel}
    ensures BudgetLabel !in {NameLabel, EmailLabel, MessageLabel}
  {
    assert NameLabel[0] == 'お' && EmailLabel[0] == 'メ' && CompanyLabel[0] == '会';
    assert DeadlineLabel[0] == 'ご' && BudgetLabel[0] == '予' && MessageLabel[0] == 'お';
  }

  /** A label carried only by an optional middle part is present exactly
      when that part is. */
  lemma LabelIffPresent(pre: seq<Section>, opt: seq<Section>, post: seq<Section>, h: string)
    requires forall k :: 0 <= k < |pre| ==> pre[k].heading != h
    requires forall k :: 0 <= k < |post| ==> post[k].heading != h
    requires forall k :: 0 <= k < |opt| ==> opt[k].heading == h
    ensures HasLabel(pre + opt + post, h) <==> |opt| > 0
  {
    var s := pre + opt + post;
    forall k | 0 <= k < |s| && (k < |pre| || k >= |pre| + |opt|) ensures s[k].heading != h {
      if k < |pre| {
        assert s[k] == pre[k];
      } else {
        assert s[k] == post[k - |pre| - |opt|];
      }
    }
    if |opt| > 0 {
      assert s[|pre|] == opt[0];
    }
  }

  /** Two lists of blocks with the same labels and value classes. */
  predicate SameShape(a: seq<Section>, b: seq<Section>) {
    |a| == |b| && forall k :: 0 <= k < |a| ==> a[k].heading == b[k].heading && a[k].valueClass == b[k].valueClass
  }

  lemma RenderSectionMarkup(a: Section, b: Section, c: char)
    requires a.heading == b.heading && a.valueClass == b.valueClass
    requires c == '<' || c == '>'
    ensures Count(RenderSection(a), c) == Count(RenderSection(b), c)
  {
    var pre := "<div class=\"field\"><div class=\"field-label\">" + a.heading + "</div><div class=\""
               + a.valueClass + "\">";
    var post := "</div></div>";
    assert RenderSection(a) == pre + EscapeHtml(a.value) + post;
    assert RenderSection(b) == pre + EscapeHtml(b.value) + post;
    EscapedHasNoAngleBrackets(a.value);
    EscapedHasNoAngleBrackets(b.value);
    CountInFrame(pre, EscapeHtml(a.value), EscapeHtml(b.value), post, c);
  }

  /** Text between a fixed prefix and suffix contributes only its own count. */
  lemma CountInFrame(pre: string, x: string, y: string, post: string, c: char)
    requires Count(x, c) == Count(y, c)
    ensures Count(pre + x + post, c) == Count(pre + y + post, c)
  {
    CountAppend(pre, x, c);
    CountAppend(pre + x, post, c);
    CountAppend(pre, y, c);
    CountAppend(pre + y, post, c);
  }

  lemma {:induction false} RenderSectionsMarkup(a: seq<Section>, b: seq<Section>, c: char)
    requires SameShape(a, b)
    requires c == '<' || c == '>'
    ensures Count(RenderSections(a), c) == Count(RenderSections(b), c)
    decreases |a|
  {
    if a != [] {
      RenderSectionMarkup(a[0], b[0], c);
      RenderSectionsMarkup(a[1..], b[1..], c);
      CountAppend(RenderSection(a[0]), RenderSections(a[1..]), c);
      CountAppend(RenderSection(b[0]), RenderSections(b[1..]), c);
    }
  }

  predicate SamePresence(x: Submission, y: Submission) {
    IsSet(x.company) == IsSet(y.company) && IsSet(x.deadline) == IsSet(y.deadline)
    && IsSet(x.budget) == IsSet(y.budget)
  }

  /** No submitted text can add markup: the number of `<` and of `>` in the
      body depends only on which optional fields are set, never on what the
      fields say. */
  lemma MarkupIndependentOfInput(x: Submission, y: Submission, c: char)
    requires SamePresence(x, y)
    requires c == '<' || c == '>'
    ensures Count(ComposeBody(x), c) == Count(ComposeBody(y), c)
  {
    SectionsSameShape(x, y);
    RenderSectionsMarkup(Sections(x), Sections(y), c);
    CountInFrame(DocumentHead, RenderSections(Sections(x)), RenderSections(Sections(y)), DocumentFoot, c);
  }

  lemma SectionsSameShape(x: Submission, y: Submission)
    requires SamePresence(x, y)
    ensures SameShape(Sections(x), Sections(y))
  {
    var xh := [Section(NameLabel, x.name, ValueClass), Section(EmailLabel, x.email, ValueClass)];
    var yh := [Section(NameLabel, y.name, ValueClass), Section(EmailLabel, y.email, ValueClass)];
    var xc, yc := OptionalSection(CompanyLabel, x.company), OptionalSection(CompanyLabel, y.company);
    var xd, yd := OptionalSection(DeadlineLabel, x.deadline), OptionalSection(DeadlineLabel, y.deadline);
    var xb, yb := OptionalSection(BudgetLabel, x.budget), OptionalSection(BudgetLabel, y.budget);
    var xm := [Section(MessageLabel, x.message, MessageValueClass)];
    var ym := [Section(MessageLabel, y.message, MessageValueClass)];
    SameShapeAppend(xh, xc, yh, yc);
    SameShapeAppend(xh + xc, xd, yh + yc, yd);
    SameShapeAppend(xh + xc + xd, xb, yh + yc + yd, yb);
    SameShapeAppend(xh + xc + xd + xb, xm, yh + yc + yd + yb, ym);
  }

  lemma SameShapeAppend(a1: seq<Section>, a2: seq<Section>, b1: seq<Section>, b2: seq<Section>)
    requires SameShape(a1, b1) && SameShape(a2, b2)
    ensures SameShape(a1 + a2, b1 + b2)
  {
    forall k | 0 <= k < |a1 + a2|
      ensures (a1 + a2)[k].heading == (b1 + b2)[k].heading && (a1 + a2)[k].valueClass == (b1 + b2)[k].valueClass
    {
      if k >= |a1| {
        assert (a1 + a2)[k] == a2[k - |a1|] && (b1 + b2)[k] == b2[k - |b1|];
      }
    }
  }

  /** The message sent to the provider. */
  datatype OutboundEmail = OutboundEmail(from: string, to: string, replyTo: string, subject: string, html: string)

  const Sender: string := "Portfolio Contact <onboarding@resend.dev>"
  const SubjectPrefix: string := "[Portfolio] "
  const SubjectSuffix: string := "様からのお問い合わせ"

  /** `process.env.RESEND_TO_EMAIL || ''`. */
  function Recipient(env: Option<string>): (r: string)
    ensures IsSet(env) ==> r == env.value
    ensures !IsSet(env) ==> r == ""
    ensures r == env.GetOr("")
  {
    if env.Some? && env.value != "" then env.value else ""
  }

  /** The reply-to address is the submitter's address, the subject quotes the
      raw (unescaped) name, and the body is the composed HTML. */
  function ComposeEmail(sub: Submission, recipientEnv: Option<string>): (e: OutboundEmail)
    ensures e.replyTo == sub.email
    ensures SubjectPrefix + sub.name <= e.subject
    ensures e.html == ComposeBody(sub)
    ensures e.to == recipientEnv.GetOr("")
  {
    OutboundEmail(Sender, Recipient(recipientEnv), sub.email,
                  SubjectPrefix + sub.name + SubjectSuffix, ComposeBody(sub))
  }

  // ---------------------------------------------------------------------
  // The handler
  // ---------------------------------------------------------------------

  /** How `request.json()` ended: a value, a `SyntaxError`, or another
      exception. */
  datatype ParseOutcome = Parsed(body: RequestBody) | MalformedJson | ReadFailed

  /** How `resend.emails.send` ended: an id, an error object, or a thrown
      exception, which the handler's `catch` tells apart only by whether it
      is a `SyntaxError`. */
  datatype SendOutcome = Delivered(id: string) | ProviderError(detail: string) | SendThrew(syntaxError: bool)

  datatype Response = Response(
    status: nat,
    success: bool,
    message: string,
    errors: Option<seq<FieldError>>,
    id: Option<string>)

  /** The response, and the email handed to the provider if one was. */
  datatype Handling = Handling(response: Response, attempted: Option<OutboundEmail>)

  const InvalidInputMessage: string := "入力内容に問題があります"
  const DeliveryFailedMessage: string := "メール送信に失敗しました。しばらく経ってからもう一度お試しください。"
  const ThanksMessage: string := "お問い合わせを送信しました。ありがとうございます。"
  const BadFormatMessage: string := "リクエストの形式が正しくありません。"
  const UnexpectedMessage: string := "予期しないエラーが発生しました。もう一度お試しください。"

  /** `POST`: at most one send, and only for an accepted body; success (200)
      exactly when the body is accepted and the provider returns an id, and
      only then an id in the response; the field errors only on the
      validation 400; a malformed body gives a 400 without errors. */
  function HandlePost(request: ParseOutcome, isEmail: string -> bool, recipientEnv: Option<string>, send: SendOutcome): (h: Handling)
    ensures h.response.status == 200 || h.response.status == 400 || h.response.status == 500
    ensures h.response.success <==> h.response.status == 200
    ensures h.response.success <==> request.Parsed? && Accepts(request.body, isEmail) && send.Delivered?
    ensures h.response.id.Some? <==> h.response.success
    ensures h.response.success ==> h.response.id == Some(send.id)
    ensures h.response.errors.Some? <==> request.Parsed? && !Accepts(request.body, isEmail)
    ensures h.response.errors.Some? ==>
      h.response.status == 400 && h.response.errors.value == Validate(request.body, isEmail)
      && h.response.errors.value != []
    ensures h.attempted.Some? <==> request.Parsed? && Accepts(request.body, isEmail)
    ensures h.attempted.Some? ==>
      h.attempted.value == ComposeEmail(SafeParse(request.body, isEmail).value, recipientEnv)
      && h.attempted.value.replyTo == request.body.members["email"].s
      && h.attempted.value.html == ComposeBody(SafeParse(request.body, isEmail).value)
    ensures request.MalformedJson? ==>
      h.response.status == 400 && h.response.errors.None? && h.response.message == BadFormatMessage
    ensures h.attempted.Some? && send.SendThrew? && send.syntaxError ==>
      h.response.status == 400 && h.response.errors.None? && h.response.message == BadFormatMessage
    ensures request.ReadFailed? || (h.attempted.Some? && (send.ProviderError? || (send.SendThrew? && !send.syntaxError)))
      ==> h.response.status == 500
  {
    match request
    case MalformedJson =>
      Handling(Response(400, false, BadFormatMessage, None, None), None)
    case ReadFailed =>
      Handling(Response(500, false, UnexpectedMessage, None, None), None)
    case Parsed(body) =>
      match SafeParse(body, isEmail)
      case Err(errors) =>
        Handling(Response(400, false, InvalidInputMessage, Some(errors), None), None)
      case Ok(sub) =>
        var email := ComposeEmail(sub, recipientEnv);
        match send
        case ProviderError(_) =>
          Handling(Response(500, false, DeliveryFailedMessage, None, None), Some(email))
        case SendThrew(syntaxError) =>
          if syntaxError then Handling(Response(400, false, BadFormatMessage, None, None), Some(email))
          else Handling(Response(500, false, UnexpectedMessage, None, None), Some(email))
        case Delivered(id) =>
          Handling(Response(200, true, ThanksMessage, None, Some(id)), Some(email))
  }

  /** The provider's error detail never reaches the caller: the response is
      the same whatever the detail says. */
  lemma ProviderDetailNotEchoed(request: ParseOutcome, isEmail: string -> bool, recipientEnv: Option<string>, d1: string, d2: string)
    ensures HandlePost(request, isEmail, recipientEnv, ProviderError(d1)).response
         == HandlePost(request, isEmail, recipientEnv, ProviderError(d2)).response
    ensures HandlePost(request, isEmail, recipientEnv, ProviderError(d1)).response.message != ""
  {
  }

  /** A sample inquiry: a Japanese name, a valid address and an
      eleven-character message give a 200 with the provider's id. */
  lemma SampleSubmissionAccepted(isEmail: string -> bool, recipientEnv: Option<string>, id: string)
    requires isEmail("test@example.com")
    ensures var body := JsonObject(map["name" := JString("山田太郎"), "email" := JString("test@example.com"),
                                       "message" := JString("お問い合わせ内容です。")]);
            var h := HandlePost(Parsed(body), isEmail, recipientEnv, Delivered(id));
            h.response.status == 200 && h.response.success && h.response.id == Some(id)
            && h.attempted.Some? && h.attempted.value.replyTo == "test@example.com"
  {
  }
}
