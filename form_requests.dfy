/**
 * The request classes' rule tables (RegisterRequest, PostStoreRequest,
 * PostUpdateRequest, CommentStoreRequest, LoginRequest) and what a request
 * resolves to: the validated input, or the 422 reply their failedValidation
 * builds.  The throttling half of LoginRequest lives in module LoginRequests.
 */
module FormRequests {
  import opened Php
  import opened Validation
  import opened Http

  /** RegisterRequest::rules() */
  function RegisterRules(): RuleTable {
    [("name", [Required, IsString]),
     ("email", [Required, Email, Unique("users")]),
     ("password", [Required, Min(6), Confirmed])]
  }

  /** PostStoreRequest::rules() */
  function PostStoreRules(): RuleTable {
    [("content", [Nullable, IsString, Max(1000)]),
     ("image", [Nullable, Image, Max(2048)])]
  }

  /** PostUpdateRequest::rules() */
  function PostUpdateRules(): RuleTable {
    [("content", [Required, IsString, Max(1000)])]
  }

  /** CommentStoreRequest::rules() */
  function CommentStoreRules(): RuleTable {
    [("content", [Required, IsString, Max(500)])]
  }

  /** LoginRequest::rules() */
  function LoginRules(): RuleTable {
    [("email", [Required, Email]),
     ("password", [Required, IsString])]
  }

  /** What resolving a form request gives the controller: its input, or a reply that ends the request. */
  datatype Resolution = Proceed(validated: Input) | Halt(status: int, message: Message)

  /** failedValidation(): a 422 reply carrying the field errors. */
  function FailedValidation(errors: Errors): (r: Resolution)
    ensures r.Halt? && r.status == UNPROCESSABLE && r.message == InvalidInput(errors)
  {
    Halt(UNPROCESSABLE, InvalidInput(errors))
  }

  /**
   * Resolving a form request whose authorize() returns true, as RegisterRequest,
   * PostStoreRequest, PostUpdateRequest and CommentStoreRequest do: validate,
   * and on failure halt through failedValidation.
   */
  function Resolve(table: RuleTable, input: Input, checks: Checks): (r: Resolution)
    ensures r.Halt? ==> r.status == UNPROCESSABLE && r.message.InvalidInput? && r.message.errors != map[]
    ensures r.Proceed? ==> r.validated.Keys <= Attributes(table)
                           && forall a :: a in r.validated ==> a in input && r.validated[a] == input[a]
  {
    match Validate(table, input, checks)
    case Passed(v) => Proceed(v)
    case Failed(e) => FailedValidation(e)
  }

  /** Resolution succeeds exactly when no attribute of the table fails. */
  lemma ResolveProceedsIff(table: RuleTable, input: Input, checks: Checks)
    ensures Resolve(table, input, checks).Proceed?
            <==> forall i :: 0 <= i < |table| ==> FailedRules(table[i].0, table[i].1, input, checks) == []
  {
    PassesIffEveryAttributePasses(table, input, checks);
  }

  /** Whether `v` is a non-blank string (what `required` accepts among strings). */
  predicate FilledText(v: Value) {
    v.Text? && Trim(v.s) != ""
  }

  /** PostStoreRequest: `content` fails exactly when it is given and is not a string of at most 1000 characters. */
  lemma PostStoreContentRule(input: Input, checks: Checks)
    ensures var v := Lookup(input, "content");
            FailedRules("content", PostStoreRules()[0].1, input, checks) == []
            <==> v.Null? || (v.Text? && (Trim(v.s) == "" || |v.s| <= 1000))
  {
    var v := Lookup(input, "content");
    if FilledText(v) || v.File? {
      GivenNullable("content", IsString, Max(1000), input, checks);
    } else {
      AbsentNullable("content", IsString, Max(1000), input, checks);
    }
  }

  /** PostStoreRequest: `image` fails exactly when it is given and is not an image of at most 2048 KB. */
  lemma PostStoreImageRule(input: Input, checks: Checks)
    ensures var v := Lookup(input, "image");
            FailedRules("image", PostStoreRules()[1].1, input, checks) == []
            <==> v.Null? || (v.Text? && Trim(v.s) == "")
                 || (v.File? && checks.isImage(v.file) && |v.file.bytes| <= 2048 * 1024)
  {
    var v := Lookup(input, "image");
    if FilledText(v) || v.File? {
      GivenNullable("image", Image, Max(2048), input, checks);
    } else {
      AbsentNullable("image", Image, Max(2048), input, checks);
    }
  }

  /** PostStoreRequest accepts a post with neither content nor image: nothing server-side demands one of them. */
  lemma PostStoreAcceptsNeitherContentNorImage(input: Input, checks: Checks)
    requires Lookup(input, "content") == Null && Lookup(input, "image") == Null
    ensures Resolve(PostStoreRules(), input, checks).Proceed?
  {
    PostStoreContentRule(input, checks);
    PostStoreImageRule(input, checks);
    ResolveProceedsIff(PostStoreRules(), input, checks);
  }

  /** PostStoreRequest has no `tags` rule, so its validated input never carries tags. */
  lemma PostStoreNeverCarriesTags(input: Input, checks: Checks)
    ensures var r := Resolve(PostStoreRules(), input, checks);
            r.Proceed? ==> "tags" !in r.validated
  {
    assert Attributes(PostStoreRules()) == {"content", "image"};
  }

  /** What PostStoreRequest hands on: never `tags`, and never a file as content. */
  lemma PostStoreValidatedShape(input: Input, checks: Checks)
    ensures var r := Resolve(PostStoreRules(), input, checks);
            r.Proceed? ==> "tags" !in r.validated && ("content" in r.validated ==> !r.validated["content"].File?)
  {
    var r := Resolve(PostStoreRules(), input, checks);
    if r.Proceed? {
      PostStoreNeverCarriesTags(input, checks);
      ResolveProceedsIff(PostStoreRules(), input, checks);
      PostStoreContentRule(input, checks);
      if "content" in r.validated {
        assert r.validated["content"] == Lookup(input, "content");
      }
    }
  }

  /**
   * For a non-blank string or a file, every rule is checked except a `unique`
   * after an earlier failure, and validation stops only at a failed `required`.
   */
  lemma GivenStep(attr: string, rules: seq<Rule>, k: nat, failedBefore: bool, input: Input, checks: Checks)
    requires k < |rules|
    requires FilledText(Lookup(input, attr)) || Lookup(input, attr).File?
    ensures var r := rules[k];
            FailedFrom(attr, rules, k, failedBefore, input, checks)
            == if (r.Unique? && failedBefore) || Passes(r, attr, Lookup(input, attr), input, checks)
               then FailedFrom(attr, rules, k + 1, failedBefore, input, checks)
               else if Implicit(r) then [r] else [r] + FailedFrom(attr, rules, k + 1, true, input, checks)
  {
    assert attr in input;
    if !(rules[k].Unique? && failedBefore) {
      assert Validatable(rules[k], attr, rules, failedBefore, input);
    }
  }

  /** Rule r as a failed-rule list of its own: empty when the attribute's value passes it. */
  function FailsAs(r: Rule, attr: string, input: Input, checks: Checks): seq<Rule> {
    if Passes(r, attr, Lookup(input, attr), input, checks) then [] else [r]
  }

  /** `required|a` on a non-blank string or a file: exactly `a` can fail. */
  lemma GivenTwo(attr: string, a: Rule, input: Input, checks: Checks)
    requires FilledText(Lookup(input, attr)) || Lookup(input, attr).File?
    requires !Implicit(a)
    ensures FailedRules(attr, [Required, a], input, checks) == FailsAs(a, attr, input, checks)
  {
    var rules := [Required, a];
    GivenStep(attr, rules, 1, false, input, checks);
    GivenStep(attr, rules, 0, false, input, checks);
  }

  /**
   * `required|a|b` on a non-blank string or a file, where b is not `unique`:
   * exactly `a` and `b` can fail, in that order.
   */
  lemma GivenThree(attr: string, a: Rule, b: Rule, input: Input, checks: Checks)
    requires FilledText(Lookup(input, attr)) || Lookup(input, attr).File?
    requires !Implicit(a) && !Implicit(b) && !b.Unique?
    ensures FailedRules(attr, [Required, a, b], input, checks)
            == FailsAs(a, attr, input, checks) + FailsAs(b, attr, input, checks)
  {
    var rules := [Required, a, b];
    GivenStep(attr, rules, 2, false, input, checks);
    GivenStep(attr, rules, 2, true, input, checks);
    GivenStep(attr, rules, 1, false, input, checks);
    GivenStep(attr, rules, 0, false, input, checks);
  }

  /**
   * `nullable|a|b` on a non-blank string or a file, where b is not `unique`:
   * exactly `a` and `b` can fail, in that order.
   */
  lemma GivenNullable(attr: string, a: Rule, b: Rule, input: Input, checks: Checks)
    requires FilledText(Lookup(input, attr)) || Lookup(input, attr).File?
    requires !Implicit(a) && !Implicit(b) && !b.Unique?
    ensures FailedRules(attr, [Nullable, a, b], input, checks)
            == FailsAs(a, attr, input, checks) + FailsAs(b, attr, input, checks)
  {
    var rules := [Nullable, a, b];
    GivenStep(attr, rules, 2, false, input, checks);
    GivenStep(attr, rules, 2, true, input, checks);
    GivenStep(attr, rules, 1, false, input, checks);
    GivenStep(attr, rules, 0, false, input, checks);
  }

  /** `nullable|a|b` on a missing, null or blank value: no rule is checked. */
  lemma AbsentNullable(attr: string, a: Rule, b: Rule, input: Input, checks: Checks)
    requires !FilledText(Lookup(input, attr)) && !Lookup(input, attr).File?
    requires !Implicit(a) && !Implicit(b)
    ensures FailedRules(attr, [Nullable, a, b], input, checks) == []
  {
    var rules := [Nullable, a, b];
    assert rules[0] == Nullable && rules[1] == a && rules[2] == b;
    assert Nullable in rules;
    forall r | !Implicit(r) ensures !Validatable(r, attr, rules, false, input) {
    }
    assert FailedFrom(attr, rules, 3, false, input, checks) == [];
    assert FailedFrom(attr, rules, 2, false, input, checks) == [];
    assert FailedFrom(attr, rules, 1, false, input, checks) == [];
  }

  /** A missing, null or blank value fails a leading `required`, and nothing after it is checked. */
  lemma AbsentStopsAtRequired(attr: string, rules: seq<Rule>, input: Input, checks: Checks)
    requires |rules| > 0 && rules[0] == Required
    requires !FilledText(Lookup(input, attr)) && !Lookup(input, attr).File?
    ensures FailedRules(attr, rules, input, checks) == [Required]
  {
    assert Validatable(Required, attr, rules, false, input);
  }

  /** `required|string|max:n`: passes exactly for a non-blank string of at most n characters. */
  lemma RequiredStringMax(attr: string, n: nat, input: Input, checks: Checks)
    ensures var v := Lookup(input, attr);
            FailedRules(attr, [Required, IsString, Max(n)], input, checks) == []
            <==> FilledText(v) && |v.s| <= n
  {
    var v := Lookup(input, attr);
    if FilledText(v) || v.File? {
      GivenThree(attr, IsString, Max(n), input, checks);
    } else {
      AbsentStopsAtRequired(attr, [Required, IsString, Max(n)], input, checks);
    }
  }

  /** `required|string`: passes exactly for a non-blank string. */
  lemma RequiredString(attr: string, input: Input, checks: Checks)
    ensures FailedRules(attr, [Required, IsString], input, checks) == [] <==> FilledText(Lookup(input, attr))
  {
    var v := Lookup(input, attr);
    if FilledText(v) || v.File? {
      GivenTwo(attr, IsString, input, checks);
    } else {
      AbsentStopsAtRequired(attr, [Required, IsString], input, checks);
    }
  }

  /** `required|email`: passes exactly for a non-blank well-formed e-mail string. */
  lemma RequiredEmail(attr: string, input: Input, checks: Checks)
    ensures var v := Lookup(input, attr);
            FailedRules(attr, [Required, Email], input, checks) == [] <==> FilledText(v) && checks.isEmail(v.s)
  {
    var v := Lookup(input, attr);
    if FilledText(v) || v.File? {
      GivenTwo(attr, Email, input, checks);
    } else {
      AbsentStopsAtRequired(attr, [Required, Email], input, checks);
    }
  }

  /** `required|email|unique:users` on a non-blank string or a file: `email` fails alone, or else `unique` may fail. */
  lemma EmailThenUnique(attr: string, input: Input, checks: Checks)
    requires FilledText(Lookup(input, attr)) || Lookup(input, attr).File?
    ensures FailedRules(attr, [Required, Email, Unique("users")], input, checks)
            == if Passes(Email, attr, Lookup(input, attr), input, checks) then FailsAs(Unique("users"), attr, input, checks)
               else [Email]
  {
    var rules := [Required, Email, Unique("users")];
    GivenStep(attr, rules, 2, false, input, checks);
    GivenStep(attr, rules, 2, true, input, checks);
    GivenStep(attr, rules, 1, false, input, checks);
    GivenStep(attr, rules, 0, false, input, checks);
  }

  /**
   * `required|email|unique:users`: passes exactly for a non-blank well-formed
   * e-mail nobody has registered.  A taken address reports `unique` only when
   * it is well-formed: once `email` has failed, `unique` is not checked.
   */
  lemma RequiredEmailUnique(attr: string, input: Input, checks: Checks)
    ensures var v := Lookup(input, attr);
            var failed := FailedRules(attr, [Required, Email, Unique("users")], input, checks);
            && (failed == [] <==> FilledText(v) && checks.isEmail(v.s) && !checks.taken(v.s))
            && (FilledText(v) && checks.isEmail(v.s) && checks.taken(v.s) ==> failed == [Unique("users")])
            && (v.File? || (FilledText(v) && !checks.isEmail(v.s)) ==> failed == [Email])
            && (!FilledText(v) && !v.File? ==> failed == [Required])
  {
    var v := Lookup(input, attr);
    if FilledText(v) || v.File? {
      EmailThenUnique(attr, input, checks);
    } else {
      AbsentStopsAtRequired(attr, [Required, Email, Unique("users")], input, checks);
    }
  }

  /** `required|min:6|confirmed`: passes exactly for a non-blank string of at least 6 characters equal to its confirmation. */
  lemma RequiredMinConfirmed(attr: string, input: Input, checks: Checks)
    ensures var v := Lookup(input, attr);
            FailedRules(attr, [Required, Min(6), Confirmed], input, checks) == []
            <==> FilledText(v) && |v.s| >= 6 && Lookup(input, attr + "_confirmation") == v
  {
    var v := Lookup(input, attr);
    if v.File? {
      ConfirmedRejectsFiles(attr, input, checks);
    } else if FilledText(v) {
      ConfirmedText(attr, input, checks);
    }
  }

  /** An uploaded file is never `confirmed` (objects are compared by identity). */
  lemma ConfirmedRejectsFiles(attr: string, input: Input, checks: Checks)
    requires Lookup(input, attr).File?
    ensures FailedRules(attr, [Required, Min(6), Confirmed], input, checks) != []
  {
    GivenThree(attr, Min(6), Confirmed, input, checks);
  }

  /** For a non-blank string, `min:6|confirmed` passes exactly on length and equality with the confirmation. */
  lemma ConfirmedText(attr: string, input: Input, checks: Checks)
    requires FilledText(Lookup(input, attr))
    ensures var v := Lookup(input, attr);
            FailedRules(attr, [Required, Min(6), Confirmed], input, checks) == []
            <==> |v.s| >= 6 && Lookup(input, attr + "_confirmation") == v
  {
    GivenThree(attr, Min(6), Confirmed, input, checks);
  }

  /** PostUpdateRequest proceeds exactly for a non-blank string content of at most 1000 characters, and passes on nothing else. */
  lemma PostUpdateResolves(input: Input, checks: Checks)
    ensures var v := Lookup(input, "content");
            var r := Resolve(PostUpdateRules(), input, checks);
            && (r.Proceed? <==> FilledText(v) && |v.s| <= 1000)
            && (r.Proceed? ==> r.validated == map["content" := v])
  {
    ResolveProceedsIff(PostUpdateRules(), input, checks);
    RequiredStringMax("content", 1000, input, checks);
    var r := Resolve(PostUpdateRules(), input, checks);
    if r.Proceed? {
      assert Attributes(PostUpdateRules()) == {"content"};
      assert "content" in input;
    }
  }

  /** CommentStoreRequest proceeds exactly for a non-blank string content of at most 500 characters. */
  lemma CommentStoreResolves(input: Input, checks: Checks)
    ensures var v := Lookup(input, "content");
            var r := Resolve(CommentStoreRules(), input, checks);
            && (r.Proceed? <==> FilledText(v) && |v.s| <= 500)
            && (r.Proceed? ==> r.validated == map["content" := v])
  {
    ResolveProceedsIff(CommentStoreRules(), input, checks);
    RequiredStringMax("content", 500, input, checks);
    var r := Resolve(CommentStoreRules(), input, checks);
    if r.Proceed? {
      assert Attributes(CommentStoreRules()) == {"content"};
      assert "content" in input;
    }
  }

  /**
   * RegisterRequest proceeds exactly when the name is a string, the e-mail is
   * well-formed and unused, and the password has at least 6 characters and equals
   * its confirmation.
   */
  lemma RegisterResolves(input: Input, checks: Checks)
    ensures var name := Lookup(input, "name");
            var email := Lookup(input, "email");
            var password := Lookup(input, "password");
            Resolve(RegisterRules(), input, checks).Proceed?
            <==> && FilledText(name)
                 && FilledText(email) && checks.isEmail(email.s) && !checks.taken(email.s)
                 && FilledText(password) && |password.s| >= 6
                 && Lookup(input, "password_confirmation") == password
  {
    var t := RegisterRules();
    assert t[0] == ("name", [Required, IsString]);
    assert t[1] == ("email", [Required, Email, Unique("users")]);
    assert t[2] == ("password", [Required, Min(6), Confirmed]);
    ResolveProceedsIff(t, input, checks);
    EveryOfThree(t, input, checks);
    RequiredString("name", input, checks);
    RequiredEmailUnique("email", input, checks);
    RequiredMinConfirmed("password", input, checks);
    PasswordConfirmationName();
  }

  /** The confirmation field of `password` is `password_confirmation`. */
  lemma PasswordConfirmationName()
    ensures "password" + "_confirmation" == "password_confirmation"
  {
  }

  /** A three-attribute table passes when each of its three attributes does. */
  lemma EveryOfThree(t: RuleTable, input: Input, checks: Checks)
    requires |t| == 3
    ensures (forall i :: 0 <= i < |t| ==> FailedRules(t[i].0, t[i].1, input, checks) == [])
            <==> && FailedRules(t[0].0, t[0].1, input, checks) == []
                 && FailedRules(t[1].0, t[1].1, input, checks) == []
                 && FailedRules(t[2].0, t[2].1, input, checks) == []
  {
  }

  /** Registering a well-formed e-mail that is already taken fails, and the `email` errors are the unique rule alone. */
  lemma RegisterRejectsTakenEmail(input: Input, checks: Checks)
    requires var email := Lookup(input, "email");
             FilledText(email) && checks.isEmail(email.s) && checks.taken(email.s)
    ensures var r := Resolve(RegisterRules(), input, checks);
            && r.Halt? && r.status == UNPROCESSABLE
            && "email" in r.message.errors && r.message.errors["email"] == [Unique("users")]
  {
    var rules := RegisterRules();
    RequiredEmailUnique("email", input, checks);
    FailedAttributeIsReported(rules, 1, input, checks);
  }

  /** A malformed e-mail fails registration on `email` alone, whether or not it is taken. */
  lemma RegisterRejectsMalformedEmail(input: Input, checks: Checks)
    requires var email := Lookup(input, "email");
             FilledText(email) && !checks.isEmail(email.s)
    ensures var r := Resolve(RegisterRules(), input, checks);
            && r.Halt? && r.status == UNPROCESSABLE
            && "email" in r.message.errors && r.message.errors["email"] == [Email]
  {
    var rules := RegisterRules();
    RequiredEmailUnique("email", input, checks);
    FailedAttributeIsReported(rules, 1, input, checks);
  }

  /** LoginRequest's rules pass exactly for a well-formed e-mail and a non-blank string password. */
  lemma LoginRulesPass(input: Input, checks: Checks)
    ensures var email := Lookup(input, "email");
            var password := Lookup(input, "password");
            Validate(LoginRules(), input, checks).Passed?
            <==> FilledText(email) && checks.isEmail(email.s) && FilledText(password)
  {
    PassesIffEveryAttributePasses(LoginRules(), input, checks);
    RequiredEmail("email", input, checks);
    RequiredString("password", input, checks);
  }
}
