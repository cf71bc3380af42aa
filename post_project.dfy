/**
 * The project-submission form: six text fields, a map of per-field error
 * messages, the validation that fills that map, the per-field edit that clears
 * one message, and the submit that validates, normalises the tags and resets
 * the form.
 */
module PostProject {
  import opened Js

  datatype Field = Title | GithubRepo | Description | Vision | Tags | FundingGoal

  const AllFields: set<Field> := {Title, GithubRepo, Description, Vision, Tags, FundingGoal}

  /** `ProjectFormData`: every field is the raw text of an input. */
  datatype FormData = FormData(
    title: string,
    githubRepo: string,
    description: string,
    vision: string,
    tags: string,
    fundingGoal: string)
  {
    /** `formData[field]`. */
    function Get(f: Field): string {
      match f
      case Title => title
      case GithubRepo => githubRepo
      case Description => description
      case Vision => vision
      case Tags => tags
      case FundingGoal => fundingGoal
    }

    /** `{ ...formData, [field]: value }`. */
    function With(f: Field, value: string): (r: FormData)
      ensures r.Get(f) == value
      ensures forall g :: g != f ==> r.Get(g) == Get(g)
    {
      match f
      case Title => this.(title := value)
      case GithubRepo => this.(githubRepo := value)
      case Description => this.(description := value)
      case Vision => this.(vision := value)
      case Tags => this.(tags := value)
      case FundingGoal => this.(fundingGoal := value)
    }
  }

  /** The form as first shown and as reset after a successful submit. */
  const EmptyForm := FormData("", "", "", "", "", "")

  /** The messages validateForm can record. */
  datatype Message =
    | TitleRequired
    | GithubRequired
    | GithubInvalid
    | DescriptionRequired
    | DescriptionTooShort
    | FundingGoalRequired
    | FundingGoalInvalid
  {
    /** The text shown under the field. */
    function Text(): (t: string)
      ensures t != ""
    {
      match this
      case TitleRequired => "Project title is required"
      case GithubRequired => "GitHub repository link is required"
      case GithubInvalid => "Please enter a valid GitHub repository URL"
      case DescriptionRequired => "Project description is required"
      case DescriptionTooShort => "Description must be at least 50 characters"
      case FundingGoalRequired => "Funding goal is required"
      case FundingGoalInvalid => "Please enter a valid funding amount"
    }
  }

  /** The substring a repository link must contain. */
  const GithubHost := "github.com"

  /** The fewest UTF-16 code units a description may have. */
  const MinDescriptionLength := 50

  /**
   * `!(isNaN(Number(s)) || Number(s) <= 0)`, where `toNumber` stands for
   * `Number` and returns None for NaN.
   */
  predicate IsPositiveNumber(toNumber: string -> Option<real>, s: string) {
    toNumber(s).Some? && toNumber(s).value > 0.0
  }

  /** The message validateForm records for one field, if any. */
  function FieldError(d: FormData, toNumber: string -> Option<real>, f: Field): Option<Message> {
    match f
    case Title =>
      if Trim(d.title) == "" then Some(TitleRequired) else None
    case GithubRepo =>
      if Trim(d.githubRepo) == "" then Some(GithubRequired)
      else if !Includes(d.githubRepo, GithubHost) then Some(GithubInvalid)
      else None
    case Description =>
      if Trim(d.description) == "" then Some(DescriptionRequired)
      else if Utf16Length(d.description) < MinDescriptionLength then Some(DescriptionTooShort)
      else None
    case FundingGoal =>
      if Trim(d.fundingGoal) == "" then Some(FundingGoalRequired)
      else if !IsPositiveNumber(toNumber, d.fundingGoal) then Some(FundingGoalInvalid)
      else None
    case Vision => None
    case Tags => None
  }

  /** `errors` holds exactly the messages FieldError gives for the form `d`. */
  ghost predicate ErrorsFor(d: FormData, toNumber: string -> Option<real>, errors: map<Field, Message>) {
    forall f :: (f in errors <==> FieldError(d, toNumber, f).Some?)
      && (f in errors ==> errors[f] == FieldError(d, toNumber, f).value)
  }

  /** The title is rejected exactly when it is blank. */
  lemma TitleRule(d: FormData, toNumber: string -> Option<real>)
    ensures FieldError(d, toNumber, Title) == if IsBlank(d.title) then Some(TitleRequired) else None
  {
    TrimEmptyIffBlank(d.title);
  }

  /** The link is required when blank, and must otherwise contain `github.com` as it stands. */
  lemma GithubRepoRule(d: FormData, toNumber: string -> Option<real>)
    ensures FieldError(d, toNumber, GithubRepo) ==
      if IsBlank(d.githubRepo) then Some(GithubRequired)
      else if !Includes(d.githubRepo, GithubHost) then Some(GithubInvalid)
      else None
  {
    TrimEmptyIffBlank(d.githubRepo);
  }

  /** The description is required when blank, and must otherwise be 50 code units long untrimmed. */
  lemma DescriptionRule(d: FormData, toNumber: string -> Option<real>)
    ensures FieldError(d, toNumber, Description) ==
      if IsBlank(d.description) then Some(DescriptionRequired)
      else if Utf16Length(d.description) < MinDescriptionLength then Some(DescriptionTooShort)
      else None
  {
    TrimEmptyIffBlank(d.description);
  }

  /** The goal is required when blank, and must otherwise read as a positive number. */
  lemma FundingGoalRule(d: FormData, toNumber: string -> Option<real>)
    ensures FieldError(d, toNumber, FundingGoal) ==
      if IsBlank(d.fundingGoal) then Some(FundingGoalRequired)
      else if !IsPositiveNumber(toNumber, d.fundingGoal) then Some(FundingGoalInvalid)
      else None
  {
    TrimEmptyIffBlank(d.fundingGoal);
  }

  /** A link that contains `github.com` is not blank, so only the second check can reject it. */
  lemma HostedLinkNotBlank(link: string)
    requires Includes(link, GithubHost)
    ensures !IsBlank(link)
  {
    IncludesIff(link, GithubHost);
    var i :| OccursAt(link, GithubHost, i);
    assert link[i] == link[i..i + |GithubHost|][0] == 'g';
  }

  /** The error map is empty exactly when no field has a message. */
  lemma NoErrorsIffNoFieldError(d: FormData, toNumber: string -> Option<real>, errors: map<Field, Message>)
    requires ErrorsFor(d, toNumber, errors)
    ensures errors == map[] <==>
      && FieldError(d, toNumber, Title).None? && FieldError(d, toNumber, GithubRepo).None?
      && FieldError(d, toNumber, Description).None? && FieldError(d, toNumber, FundingGoal).None?
  {
    if errors != map[] {
      var f :| f in errors;
      match f
      case Title =>
      case GithubRepo =>
      case Description =>
      case FundingGoal =>
      case Vision =>
      case Tags =>
    }
  }

  /**
   * A form passes validation exactly when the title is not blank, the link
   * contains `github.com`, the description is not blank and at least 50 code
   * units long, and the funding goal is not blank and reads as a positive number.
   */
  lemma ValidIff(d: FormData, toNumber: string -> Option<real>, errors: map<Field, Message>)
    requires ErrorsFor(d, toNumber, errors)
    ensures errors == map[] <==>
      && !IsBlank(d.title)
      && Includes(d.githubRepo, GithubHost)
      && !IsBlank(d.description) && Utf16Length(d.description) >= MinDescriptionLength
      && !IsBlank(d.fundingGoal) && IsPositiveNumber(toNumber, d.fundingGoal)
  {
    NoErrorsIffNoFieldError(d, toNumber, errors);
    TitleRule(d, toNumber);
    GithubRepoRule(d, toNumber);
    DescriptionRule(d, toNumber);
    FundingGoalRule(d, toNumber);
    if Includes(d.githubRepo, GithubHost) {
      HostedLinkNotBlank(d.githubRepo);
    }
  }

  /** Non-empty text, the test of `.filter(Boolean)` on strings. */
  predicate IsNonEmpty(s: string) { s != "" }

  /** `tags.split(',').map(tag => tag.trim()).filter(Boolean)`. */
  function NormalizeTags(tags: string): seq<string> {
    Filter(IsNonEmpty, Map(Trim, Split(tags, ',')))
  }

  /** Every normalised tag is non-empty, already trimmed and free of commas. */
  lemma NormalizedTagsAreClean(tags: string)
    ensures var r := NormalizeTags(tags);
      forall i :: 0 <= i < |r| ==> r[i] != "" && Trim(r[i]) == r[i] && ',' !in r[i]
  {
    var pieces := Split(tags, ',');
    var trimmed := Map(Trim, pieces);
    var kept := Filter(IsNonEmpty, trimmed);
    forall i | 0 <= i < |kept| ensures kept[i] != "" && Trim(kept[i]) == kept[i] && ',' !in kept[i] {
      FilterMembership(IsNonEmpty, trimmed, kept[i]);
      var k :| 0 <= k < |trimmed| && trimmed[k] == kept[i];
      TrimIdempotent(pieces[k]);
      TrimShape(pieces[k]);
      var start :| OccursAt(pieces[k], kept[i], start);
      assert forall c :: c in kept[i] ==> c in pieces[k];
    }
  }

  /** A tag is kept exactly when it is the non-empty trim of one of the comma-separated pieces. */
  lemma NormalizeTagsMembership(tags: string, tag: string)
    ensures tag in NormalizeTags(tags) <==>
      tag != "" && exists piece :: piece in Split(tags, ',') && Trim(piece) == tag
  {
    var pieces := Split(tags, ',');
    var trimmed := Map(Trim, pieces);
    FilterMembership(IsNonEmpty, trimmed, tag);
    if tag in trimmed {
      var k :| 0 <= k < |trimmed| && trimmed[k] == tag;
      assert pieces[k] in pieces;
    }
    if exists piece :: piece in pieces && Trim(piece) == tag {
      var piece :| piece in pieces && Trim(piece) == tag;
      var k :| 0 <= k < |pieces| && pieces[k] == piece;
      assert trimmed[k] == tag;
    }
  }

  /** Tags that are already clean survive a join with commas and a normalisation unchanged. */
  lemma NormalizeJoinedTags(tags: seq<string>)
    requires forall i :: 0 <= i < |tags| ==> tags[i] != "" && Trim(tags[i]) == tags[i] && ',' !in tags[i]
    ensures NormalizeTags(Join(tags, ',')) == tags
  {
    if tags == [] {
      // `"".split(',')` is `[""]`, and the one empty piece is dropped.
      assert Split("", ',') == [""];
      assert Map(Trim, [""]) == [""];
      assert Filter(IsNonEmpty, [""]) == Filter(IsNonEmpty, [""][1..]);
    } else {
      JoinThenSplit(tags, ',');
      assert Map(Trim, tags) == tags;
      FilterAll(IsNonEmpty, tags);
    }
  }

  /** What the page logs for a submission that passed validation. */
  datatype Submission = Submission(
    title: string,
    githubRepo: string,
    description: string,
    vision: string,
    tags: seq<string>,
    fundingGoal: real)

  class PostProjectForm {
    var formData: FormData
    var errors: map<Field, Message>
    var showSuccess: bool
    /** `Number`, returning None where JavaScript returns NaN. */
    const toNumber: string -> Option<real>

    constructor (toNumber: string -> Option<real>)
      ensures formData == EmptyForm && errors == map[] && !showSuccess
      ensures this.toNumber == toNumber
    {
      formData := EmptyForm;
      errors := map[];
      showSuccess := false;
      this.toNumber := toNumber;
    }

    /** `validateForm`: builds the error map field by field, commits it, reports whether it is empty. */
    method ValidateForm() returns (valid: bool)
      modifies this`errors
      ensures ErrorsFor(formData, toNumber, errors)
      ensures valid <==> errors == map[]
    {
      var newErrors: map<Field, Message> := map[];
      if Trim(formData.title) == "" {
        newErrors := newErrors[Title := TitleRequired];
      }
      if Trim(formData.githubRepo) == "" {
        newErrors := newErrors[GithubRepo := GithubRequired];
      } else if !Includes(formData.githubRepo, GithubHost) {
        newErrors := newErrors[GithubRepo := GithubInvalid];
      }
      if Trim(formData.description) == "" {
        newErrors := newErrors[Description := DescriptionRequired];
      } else if Utf16Length(formData.description) < MinDescriptionLength {
        newErrors := newErrors[Description := DescriptionTooShort];
      }
      if Trim(formData.fundingGoal) == "" {
        newErrors := newErrors[FundingGoal := FundingGoalRequired];
      } else if !IsPositiveNumber(toNumber, formData.fundingGoal) {
        newErrors := newErrors[FundingGoal := FundingGoalInvalid];
      }
      forall f ensures
        && (f in newErrors <==> FieldError(formData, toNumber, f).Some?)
        && (f in newErrors ==> newErrors[f] == FieldError(formData, toNumber, f).value)
      {
        match f
        case Title =>
        case GithubRepo =>
        case Description =>
        case FundingGoal =>
        case Vision =>
        case Tags =>
      }
      errors := newErrors;
      valid := |newErrors| == 0;
    }

    /** `handleInputChange`: sets one field and clears that field's message only. */
    method HandleInputChange(field: Field, value: string)
      modifies this`formData, this`errors
      ensures formData == old(formData).With(field, value)
      ensures field !in errors
      ensures forall g :: g != field ==> (g in errors <==> g in old(errors))
      ensures forall g :: g != field && g in errors ==> errors[g] == old(errors)[g]
    {
      formData := formData.With(field, value);
      // `if (errors[field])`: every message text is truthy.
      if field in errors {
        errors := errors - {field};
      }
    }

    /**
     * `handleSubmit`: on a failed validation nothing but the error map changes;
     * otherwise the submission is produced and every field is reset to empty.
     */
    method HandleSubmit() returns (submitted: Option<Submission>)
      modifies this`formData, this`errors, this`showSuccess
      ensures ErrorsFor(old(formData), toNumber, errors)
      ensures submitted.None? <==> errors != map[]
      ensures submitted.None? ==> formData == old(formData) && showSuccess == old(showSuccess)
      ensures submitted.Some? ==> formData == EmptyForm && showSuccess
      ensures submitted.Some? ==>
        var d, s := old(formData), submitted.value;
        && s.title == d.title && s.githubRepo == d.githubRepo
        && s.description == d.description && s.vision == d.vision
        && s.tags == NormalizeTags(d.tags)
        && Some(s.fundingGoal) == toNumber(d.fundingGoal) && s.fundingGoal > 0.0
    {
      var valid := ValidateForm();
      if !valid {
        return None;
      }
      ValidIff(formData, toNumber, errors);
      var d := formData;
      submitted := Some(Submission(
        d.title, d.githubRepo, d.description, d.vision,
        NormalizeTags(d.tags), toNumber(d.fundingGoal).value));
      showSuccess := true;
      formData := EmptyForm;
    }
  }
}
