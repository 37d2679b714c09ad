/** Registering a community: the form's values are normalised, checked against the community
    schema, and only when they pass is a row inserted, carrying the signed-in user as admin and
    the fixed secondary colour. URL and e-mail syntax are decided by predicates given as inputs. */
module CommunityRegister {
  import opened Wrappers
  import Hex

  /** The length zod measures: UTF-16 code units, two for a character beyond U+FFFF. */
  function Utf16Length(s: string): (n: nat)
    ensures |s| <= n <= 2 * |s|
  {
    if s == [] then 0 else Utf16Length(s[..|s| - 1]) + (if s[|s| - 1] as int >= 0x10000 then 2 else 1)
  }

  lemma {:induction false} Utf16LengthBmp(s: string)
    requires forall i :: 0 <= i < |s| ==> s[i] as int < 0x10000
    ensures Utf16Length(s) == |s|
  {
    if s != [] {
      Utf16LengthBmp(s[..|s| - 1]);
    }
  }

  const CommunityTypes: set<string> := {"school", "university", "organization", "group", "other"}

  /** The fields of the schema, each a way validation can fail. */
  datatype Field = Name | Type | Description | WebsiteUrl | ContactEmail | PrimaryColor

  /** The object handed to `communitySchema.parse`. */
  datatype SchemaInput = SchemaInput(
    name: string,
    kind: string,
    description: Option<string>,
    websiteUrl: Option<string>,
    contactEmail: Option<string>,
    primaryColor: string)

  /** The validated data: the same values, once every rule holds. */
  datatype Community = Community(
    name: string,
    kind: string,
    description: Option<string>,
    websiteUrl: Option<string>,
    contactEmail: Option<string>,
    primaryColor: string)

  predicate ValidName(s: string) {
    3 <= Utf16Length(s) <= 100
  }

  predicate ValidType(s: string) {
    s in CommunityTypes
  }

  predicate ValidDescription(d: Option<string>) {
    d.None? || Utf16Length(d.value) <= 500
  }

  /** `z.string().url().optional().or(z.literal(""))`, and the same shape for the e-mail. */
  predicate ValidOptional(v: Option<string>, accepts: string -> bool) {
    v.None? || v.value == "" || accepts(v.value)
  }

  /** `/^#[0-9A-Fa-f]{6}$/`. */
  predicate ValidColor(c: string) {
    |c| == 7 && c[0] == '#' && forall i :: 1 <= i < 7 ==> Hex.IsHexDigit(c[i])
  }

  predicate FieldValid(f: Field, input: SchemaInput, isUrl: string -> bool, isEmail: string -> bool) {
    match f
    case Name => ValidName(input.name)
    case Type => ValidType(input.kind)
    case Description => ValidDescription(input.description)
    case WebsiteUrl => ValidOptional(input.websiteUrl, isUrl)
    case ContactEmail => ValidOptional(input.contactEmail, isEmail)
    case PrimaryColor => ValidColor(input.primaryColor)
  }

  /** `communitySchema.parse`: the validated data, or the set of fields that broke a rule. */
  function Validate(input: SchemaInput, isUrl: string -> bool, isEmail: string -> bool)
    : (r: Result<Community, set<Field>>)
    ensures r.Success? <==> forall f :: FieldValid(f, input, isUrl, isEmail)
    ensures r.Failure? ==> r.error != {}
    ensures r.Failure? ==> forall f :: f in r.error <==> !FieldValid(f, input, isUrl, isEmail)
    ensures r.Success? ==>
      r.value == Community(input.name, input.kind, input.description, input.websiteUrl,
                           input.contactEmail, input.primaryColor)
  {
    var failing :=
      (if ValidName(input.name) then {} else {Name}) +
      (if ValidType(input.kind) then {} else {Type}) +
      (if ValidDescription(input.description) then {} else {Description}) +
      (if ValidOptional(input.websiteUrl, isUrl) then {} else {WebsiteUrl}) +
      (if ValidOptional(input.contactEmail, isEmail) then {} else {ContactEmail}) +
      (if ValidColor(input.primaryColor) then {} else {PrimaryColor});
    assert forall f :: f in failing <==> !FieldValid(f, input, isUrl, isEmail);
    if failing == {} then
      assert forall f :: FieldValid(f, input, isUrl, isEmail) by {
        forall f ensures FieldValid(f, input, isUrl, isEmail) {
          assert f !in failing;
        }
      }
      Success(Community(input.name, input.kind, input.description, input.websiteUrl,
                        input.contactEmail, input.primaryColor))
    else
      Failure(failing)
  }

  /** A colour passes the pattern exactly when it is `#` and the hexadecimal text of three bytes. */
  lemma ValidColorIsRgb(c: string)
    ensures ValidColor(c) <==>
      |c| == 7 && c[0] == '#' && Hex.Decode(c[1..]).Some?
    ensures ValidColor(c) ==> |Hex.Decode(c[1..]).value| == 3
  {
    if |c| == 7 {
      Hex.DecodeAccepts(c[1..]);
      assert forall i :: 1 <= i < 7 ==> c[i] == c[1..][i - 1];
    }
  }

  /** `#` followed by the hexadecimal text of any three bytes is a valid colour. */
  lemma RgbIsValidColor(rgb: seq<Hex.byte>)
    requires |rgb| == 3
    ensures ValidColor(['#'] + Hex.Encode(rgb))
  {
    var h := Hex.Encode(rgb);
    assert forall i :: 1 <= i < 7 ==> (['#'] + h)[i] == h[i - 1];
  }

  lemma DefaultColorsValid()
    ensures ValidColor(DefaultPrimaryColor) && ValidColor(SecondaryColor)
  {
  }

  const DefaultPrimaryColor: string := "#1e3a5f"
  const SecondaryColor: string := "#2d9cdb"

  /** The page's form state. */
  datatype FormValues = FormValues(
    name: string,
    kind: string,
    description: string,
    websiteUrl: string,
    contactEmail: string,
    primaryColor: string)

  /** `description || undefined` and the same for the website and e-mail; the other values are
      passed as they are. */
  function Normalize(v: FormValues): (input: SchemaInput)
    ensures input.name == v.name && input.kind == v.kind && input.primaryColor == v.primaryColor
    ensures input.description.None? <==> v.description == ""
    ensures input.websiteUrl.None? <==> v.websiteUrl == ""
    ensures input.contactEmail.None? <==> v.contactEmail == ""
    ensures input.description.Some? ==> input.description.value == v.description
    ensures input.websiteUrl.Some? ==> input.websiteUrl.value == v.websiteUrl
    ensures input.contactEmail.Some? ==> input.contactEmail.value == v.contactEmail
  {
    SchemaInput(v.name, v.kind, OrUndefined(v.description), OrUndefined(v.websiteUrl),
                OrUndefined(v.contactEmail), v.primaryColor)
  }

  /** After normalisation an empty description always passes, and an empty website or e-mail
      is absent and passes whatever the URL and e-mail rules say. */
  lemma EmptyOptionalsPass(v: FormValues, isUrl: string -> bool, isEmail: string -> bool)
    ensures v.description == "" ==> FieldValid(Description, Normalize(v), isUrl, isEmail)
    ensures v.websiteUrl == "" ==> FieldValid(WebsiteUrl, Normalize(v), isUrl, isEmail)
    ensures v.contactEmail == "" ==> FieldValid(ContactEmail, Normalize(v), isUrl, isEmail)
    ensures v.websiteUrl != "" ==>
      (FieldValid(WebsiteUrl, Normalize(v), isUrl, isEmail) <==> isUrl(v.websiteUrl))
    ensures v.contactEmail != "" ==>
      (FieldValid(ContactEmail, Normalize(v), isUrl, isEmail) <==> isEmail(v.contactEmail))
  {
  }

  /** The object inserted into `communities`. */
  datatype CommunityRow = CommunityRow(
    name: string,
    kind: string,
    description: Option<string>,
    website_url: Option<string>,
    contact_email: Option<string>,
    primary_color: string,
    admin_user_id: string,
    secondary_color: string)

  function RowOf(c: Community, userId: string): (row: CommunityRow)
    ensures row.name == c.name && row.kind == c.kind && row.description == c.description
    ensures row.website_url == c.websiteUrl && row.contact_email == c.contactEmail
    ensures row.primary_color == c.primaryColor
    ensures row.admin_user_id == userId && row.secondary_color == SecondaryColor
  {
    CommunityRow(c.name, c.kind, c.description, c.websiteUrl, c.contactEmail, c.primaryColor,
                 userId, SecondaryColor)
  }

  /** Every row that reaches the insert satisfies the schema again, and both of its colours
      match the colour pattern. */
  lemma InsertedRowValid(v: FormValues, isUrl: string -> bool, isEmail: string -> bool, userId: string)
    requires Validate(Normalize(v), isUrl, isEmail).Success?
    ensures var row := RowOf(Validate(Normalize(v), isUrl, isEmail).value, userId);
      && ValidName(row.name) && ValidType(row.kind) && ValidDescription(row.description)
      && ValidColor(row.primary_color) && ValidColor(row.secondary_color)
      && row.name == v.name && row.kind == v.kind && row.primary_color == v.primaryColor
  {
    assert FieldValid(Name, Normalize(v), isUrl, isEmail);
    assert FieldValid(Type, Normalize(v), isUrl, isEmail);
    assert FieldValid(Description, Normalize(v), isUrl, isEmail);
    assert FieldValid(PrimaryColor, Normalize(v), isUrl, isEmail);
    DefaultColorsValid();
  }

  datatype User = User(id: string)

  /** How a submission ends: navigation to the new community, the insert's error message, the
      fields zod rejected, or the unexpected error (reading the id of a missing user). */
  datatype Outcome =
    | Registered(id: string)
    | InsertFailed(message: string)
    | ValidationFailed(fields: set<Field>)
    | UnexpectedError

  class CommunityRegisterForm {
    var user: Option<User>
    var values: FormValues
    var isLoading: bool

    /** The `useState` initial values. */
    constructor ()
      ensures user == None && !isLoading
      ensures values == FormValues("", "", "", "", "", DefaultPrimaryColor)
    {
      user := None;
      values := FormValues("", "", "", "", "", DefaultPrimaryColor);
      isLoading := false;
    }

    /** The first step of handleSubmit: the button shows that a submission is under way. */
    method BeginSubmit()
      modifies this`isLoading
      ensures isLoading
    {
      isLoading := true;
    }

    /** handleSubmit. `insert` is what the insert answers: the new id or an error message.
        Returns the row handed to the insert, None when none was attempted. `isLoading` ends
        false on every path. */
    method HandleSubmit(isUrl: string -> bool, isEmail: string -> bool, insert: Result<string, string>)
      returns (attempted: Option<CommunityRow>, outcome: Outcome)
      modifies this`isLoading
      ensures !isLoading
      ensures var r := Validate(Normalize(values), isUrl, isEmail);
        && (attempted.Some? <==> r.Success? && user.Some?)
        && (r.Failure? ==> outcome == ValidationFailed(r.error))
        && (r.Success? && user.None? ==> outcome == UnexpectedError)
        && (attempted.Some? ==>
              && attempted.value == RowOf(r.value, user.value.id)
              && outcome == (if insert.Success? then Registered(insert.value) else InsertFailed(insert.error)))
    {
      BeginSubmit();
      var validated := Validate(Normalize(values), isUrl, isEmail);
      attempted := None;
      if validated.Failure? {
        outcome := ValidationFailed(validated.error);
      } else if user.None? {
        outcome := UnexpectedError;
      } else {
        var row := RowOf(validated.value, user.value.id);
        attempted := Some(row);
        if insert.Failure? {
          outcome := InsertFailed(insert.error);
          isLoading := false;
          return;
        }
        outcome := Registered(insert.value);
      }
      isLoading := false;
    }
  }
}
