/** The validation of a code submission: four fields, each with its rules
    and messages, applied the way the framework applies them. A field that
    is missing or blank fails `required` and no other rule is checked for
    it; otherwise every rule that fails adds its message, in rule order. */
module SubmitCodeRequest {
  import opened Wrappers
  import opened PhpText

  /** A request field: missing (or `null`), or a string. */
  datatype FieldValue = Absent | Text(s: string)

  /** The rules used by the four fields. */
  datatype Rule = Required | MaxLength(n: nat) | MinLength(n: nat) | FilenamePattern | InLanguages

  /** A message from `messages()`, or the framework's stock message for a
      field and rule that `messages()` does not override. */
  datatype Message = Custom(text: string) | FrameworkDefault(field: string, rule: Rule)

  /** The messages one field collected; a request passes when there are
      none. */
  datatype FieldError = FieldError(field: string, messages: seq<Message>)

  datatype Submission = Submission(userName: FieldValue, filename: FieldValue, language: FieldValue, code: FieldValue)

  const Languages: seq<string> :=
    ["javascript", "php", "python", "java", "csharp", "ruby", "go", "typescript", "swift", "kotlin"]

  const UserNameMax := 100
  const FilenameMax := 255
  const CodeMin := 10
  const CodeMax := 50000

  const UserNameRequired := "Please provide your name."
  const FilenameRequired := "Please provide a filename for your code."
  const FilenameInvalid := "Filename contains invalid characters."
  const LanguageRequired := "Please select a programming language."
  const LanguageUnsupported := "The selected language is not supported."
  const CodeRequired := "Please provide the code to review."
  const CodeTooShort := "Code must be at least 10 characters."
  const CodeTooLong := "Code is too large. Maximum 50,000 characters allowed."

  /** What `required` rejects: a missing value, or a string that is empty
      once trimmed. */
  predicate Blank(v: FieldValue) {
    v.Absent? || Trim(v.s) == ""
  }

  /** A character of the class `[\w\-. ]`: ASCII letter, digit, `_`, `-`,
      `.` or space. */
  predicate FilenameChar(c: char) {
    || 'a' <= c <= 'z' || 'A' <= c <= 'Z' || '0' <= c <= '9'
    || c == '_' || c == '-' || c == '.' || c == ' '
  }

  /** `/^[\w\-. ]+$/`: one or more characters of the class. */
  predicate MatchesFilenamePattern(s: string) {
    |s| > 0 && forall i :: 0 <= i < |s| ==> FilenameChar(s[i])
  }

  /** The messages of one rule: none when it passes. */
  function Check(passes: bool, m: Message): (r: seq<Message>)
    ensures r == [] <==> passes
  {
    if passes then [] else [m]
  }

  function UserNameErrors(v: FieldValue): (r: seq<Message>)
    ensures Blank(v) ==> r == [Custom(UserNameRequired)]
  {
    if Blank(v) then [Custom(UserNameRequired)]
    else Check(|v.s| <= UserNameMax, FrameworkDefault("user_name", MaxLength(UserNameMax)))
  }

  function FilenameErrors(v: FieldValue): (r: seq<Message>)
    ensures Blank(v) ==> r == [Custom(FilenameRequired)]
  {
    if Blank(v) then [Custom(FilenameRequired)]
    else (Check(|v.s| <= FilenameMax, FrameworkDefault("filename", MaxLength(FilenameMax)))
          + Check(MatchesFilenamePattern(v.s), Custom(FilenameInvalid)))
  }

  function LanguageErrors(v: FieldValue): (r: seq<Message>)
    ensures Blank(v) ==> r == [Custom(LanguageRequired)]
  {
    if Blank(v) then [Custom(LanguageRequired)]
    else Check(v.s in Languages, Custom(LanguageUnsupported))
  }

  function CodeErrors(v: FieldValue): (r: seq<Message>)
    ensures Blank(v) ==> r == [Custom(CodeRequired)]
  {
    if Blank(v) then [Custom(CodeRequired)]
    else (Check(|v.s| >= CodeMin, Custom(CodeTooShort)) + Check(|v.s| <= CodeMax, Custom(CodeTooLong)))
  }

  function Entry(field: string, messages: seq<Message>): seq<FieldError> {
    if messages == [] then [] else [FieldError(field, messages)]
  }

  /** The error bag the framework returns: one entry per failing field, in
      the order of `rules()`. */
  function Validate(req: Submission): seq<FieldError> {
    Entry("user_name", UserNameErrors(req.userName))
      + Entry("filename", FilenameErrors(req.filename))
      + Entry("language", LanguageErrors(req.language))
      + Entry("code", CodeErrors(req.code))
  }

  /** A request that passes: every field present, non-blank, and within its
      rules. */
  predicate Valid(req: Submission) {
    Validate(req) == []
  }

  /** The validated input the controller reads after validation passes:
      the four fields, each present as a string. */
  datatype Validated = Validated(userName: string, filename: string, language: string, code: string)

  /** Validation as the controller sees it: the validated fields when the
      request passes, nothing when it carries errors. */
  function Accept(req: Submission): (r: Option<Validated>)
    ensures r.Some? <==> Valid(req)
    ensures r.Some? ==>
      req == Submission(Text(r.value.userName), Text(r.value.filename), Text(r.value.language), Text(r.value.code))
  {
    if Valid(req) then
      ValidIffEveryField(req);
      UserNameAccepted(req.userName);
      FilenameAccepted(req.filename);
      LanguageAccepted(req.language);
      CodeAccepted(req.code);
      Some(Validated(req.userName.s, req.filename.s, req.language.s, req.code.s))
    else
      None
  }

  // ---------------------------------------------------------------------
  // What each rule set accepts

  lemma UserNameAccepted(v: FieldValue)
    ensures UserNameErrors(v) == [] <==> v.Text? && !Blank(v) && |v.s| <= 100
    ensures v.Text? && !Blank(v) && |v.s| > 100 ==>
      UserNameErrors(v) == [FrameworkDefault("user_name", MaxLength(100))]
  {
  }

  lemma FilenameAccepted(v: FieldValue)
    ensures FilenameErrors(v) == [] <==>
      v.Text? && !Blank(v) && |v.s| <= 255 && forall i :: 0 <= i < |v.s| ==> FilenameChar(v.s[i])
    ensures v.Text? && !Blank(v) && |v.s| <= 255 && !MatchesFilenamePattern(v.s) ==>
      FilenameErrors(v) == [Custom("Filename contains invalid characters.")]
  {
  }

  lemma LanguageAccepted(v: FieldValue)
    ensures LanguageErrors(v) == [] <==> v.Text? && v.s in Languages
  {
    if v.Text? && v.s in Languages {
      LanguageNotBlank(v.s);
    }
  }

  lemma LanguageRejected(v: FieldValue)
    ensures v.Text? && !Blank(v) && v.s !in Languages ==>
      LanguageErrors(v) == [Custom("The selected language is not supported.")]
  {
  }

  /** No supported tag is blank. */
  lemma LanguageNotBlank(s: string)
    requires s in Languages
    ensures !Blank(Text(s))
  {
    // every tag starts with a lower-case letter, which `trim` keeps
    assert forall i :: 0 <= i < |Languages| ==> |Languages[i]| > 0 && 'a' <= Languages[i][0] <= 'z';
    TrimKeepsFirst(s);
  }

  lemma CodeAccepted(v: FieldValue)
    ensures CodeErrors(v) == [] <==> v.Text? && !Blank(v) && 10 <= |v.s| <= 50000
    ensures v.Text? && !Blank(v) && |v.s| < 10 ==> CodeErrors(v) == [Custom("Code must be at least 10 characters.")]
    ensures v.Text? && !Blank(v) && |v.s| > 50000 ==> CodeErrors(v) == [Custom("Code is too large. Maximum 50,000 characters allowed.")]
  {
  }

  /** A request passes exactly when each of the four fields does, and a
      missing field always reports its `required` message. */
  lemma ValidIffEveryField(req: Submission)
    ensures Valid(req) <==>
      && UserNameErrors(req.userName) == [] && FilenameErrors(req.filename) == []
      && LanguageErrors(req.language) == [] && CodeErrors(req.code) == []
    ensures req.code.Absent? ==> FieldError("code", [Custom("Please provide the code to review.")]) in Validate(req)
  {
  }
}
