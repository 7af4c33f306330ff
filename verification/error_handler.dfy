/**
 * Turning request-validation failures into user-facing messages: one message
 * per failed field, keyed by the failure's position, naming the field by its
 * JSON name.
 */
module ErrorHandler {
  import opened Model

  /** One failed validation rule: the Go struct field and the rule's tag. */
  datatype FieldError = FieldError(structField: string, tag: string)

  /**
   * The error value handed to the extractor: no error, a list of validation
   * failures, or some other error (malformed JSON, for instance).
   */
  datatype ErrorValue = NoError | ValidationErrors(errors: seq<FieldError>) | OtherError(message: string)

  /** A field of the request struct and the text of its `json` tag ("" when it has none). */
  datatype StructField = StructField(name: string, jsonTag: string)

  /** The message for one failed rule on one field. */
  function MessageForTag(field: string, tag: string): string
  {
    match tag
    case "required" => field + " is required"
    case "email" => field + " is not a valid email"
    case "min" => "Invalid min length for " + field
    case "max" => "Invalid max length for " + field
    case "numeric" => field + " is not a valid numeric value"
    case _ => "Invalid value passed for " + field
  }

  /** Every message names the field it is about. */
  lemma MessageNamesField(field: string, tag: string)
    ensures Mentions(MessageForTag(field, tag), field)
  {
    if tag == "required" {
      MentionsMiddle("", field, " is required");
      assert "" + field == field;
    } else if tag == "email" {
      MentionsMiddle("", field, " is not a valid email");
      assert "" + field == field;
    } else if tag == "numeric" {
      MentionsMiddle("", field, " is not a valid numeric value");
      assert "" + field == field;
    } else {
      var before := if tag == "min" then "Invalid min length for "
                    else if tag == "max" then "Invalid max length for "
                    else "Invalid value passed for ";
      MentionsMiddle(before, field, "");
      assert before + field + "" == before + field;
      assert MessageForTag(field, tag) == before + field;
    }
  }

  lemma {:induction false} Unwrap(before: string, f1: string, f2: string, after: string)
    requires before + f1 + after == before + f2 + after
    ensures f1 == f2
  {
    var s := before + f1 + after;
    assert |f1| == |f2|;
    assert f1 == s[|before|..|before| + |f1|];
    assert f2 == (before + f2 + after)[|before|..|before| + |f2|];
  }

  /** For a given rule the message determines the field it names. */
  lemma MessageDeterminesField(f1: string, f2: string, tag: string)
    requires MessageForTag(f1, tag) == MessageForTag(f2, tag)
    ensures f1 == f2
  {
    var before, after :=
      if tag == "min" then "Invalid min length for "
      else if tag == "max" then "Invalid max length for "
      else if tag in {"required", "email", "numeric"} then ""
      else "Invalid value passed for ",
      if tag == "required" then " is required"
      else if tag == "email" then " is not a valid email"
      else if tag == "numeric" then " is not a valid numeric value"
      else "";
    assert MessageForTag(f1, tag) == before + f1 + after;
    assert MessageForTag(f2, tag) == before + f2 + after;
    Unwrap(before, f1, f2, after);
  }

  /** `strings.Split(s, ",")[0]`: the text before the first comma, or all of it. */
  function BeforeComma(s: string): (r: string)
    ensures r <= s
    ensures ',' !in r
    ensures |r| < |s| ==> s[|r|] == ','
  {
    if s == [] || s[0] == ',' then [] else [s[0]] + BeforeComma(s[1..])
  }

  /** A tag without a comma is its own first part. */
  lemma {:induction false} BeforeCommaWithoutComma(s: string)
    requires ',' !in s
    ensures BeforeComma(s) == s
  {
    if s != [] {
      BeforeCommaWithoutComma(s[1..]);
    }
  }

  /** `FieldByName`: the first field of the struct with that name. */
  function FieldByName(fields: seq<StructField>, name: string): (r: Option<StructField>)
    ensures r.Some? ==> r.value in fields && r.value.name == name
    ensures r.None? <==> forall f :: f in fields ==> f.name != name
    ensures r.Some? ==> exists k :: 0 <= k < |fields| && fields[k] == r.value && forall j :: 0 <= j < k ==> fields[j].name != name
  {
    if fields == [] then None
    else if fields[0].name == name then Some(fields[0])
    else
      var r := FieldByName(fields[1..], name);
      if r.Some? then
        var k :| 0 <= k < |fields[1..]| && fields[1..][k] == r.value && forall j :: 0 <= j < k ==> fields[1..][j].name != name;
        assert fields[k + 1] == r.value && forall j :: 0 <= j < k + 1 ==> fields[j].name != name;
        r
      else r
  }

  /**
   * getJSONFieldName: a name the struct does not have comes back unchanged;
   * otherwise the field's json tag up to its first comma (the whole tag when it
   * has no comma, "" when there is no tag).
   */
  function JsonFieldName(fields: seq<StructField>, name: string): (r: string)
    ensures FieldByName(fields, name).None? ==> r == name
    ensures FieldByName(fields, name).Some? ==> r == BeforeComma(FieldByName(fields, name).value.jsonTag)
    ensures FieldByName(fields, name).Some? && ',' !in FieldByName(fields, name).value.jsonTag ==>
      r == FieldByName(fields, name).value.jsonTag
  {
    match FieldByName(fields, name)
    case None => name
    case Some(f) =>
      var tag := f.jsonTag;
      if tag == "" || ',' in tag then BeforeComma(tag)
      else
        BeforeCommaWithoutComma(tag);
        tag
  }

  /** The messages the extractor produces, as a value: one per failure, by position. */
  function ValidationMessages(err: ErrorValue, fields: seq<StructField>): Option<map<nat, string>>
  {
    if err.ValidationErrors? then
      Some(map i: nat | i < |err.errors| :: MessageForTag(JsonFieldName(fields, err.errors[i].structField), err.errors[i].tag))
    else None
  }

  /**
   * ExtractValidationErrorMessage: nil unless the error is a list of validation
   * failures; then the message for failure i under key i, for every i.
   */
  method ExtractValidationErrorMessage(err: ErrorValue, fields: seq<StructField>) returns (messages: Option<map<nat, string>>)
    ensures messages.None? <==> !err.ValidationErrors?
    ensures messages.Some? ==> forall i: nat :: i in messages.value <==> i < |err.errors|
    ensures messages.Some? ==> forall i :: 0 <= i < |err.errors| ==>
      messages.value[i] == MessageForTag(JsonFieldName(fields, err.errors[i].structField), err.errors[i].tag)
    ensures messages == ValidationMessages(err, fields)
  {
    if !err.ValidationErrors? {
      return None;
    }
    var m: map<nat, string> := map[];
    var index := 0;
    while index < |err.errors|
      invariant 0 <= index <= |err.errors|
      invariant forall i: nat :: i in m <==> i < index
      invariant forall i :: 0 <= i < index ==>
        m[i] == MessageForTag(JsonFieldName(fields, err.errors[i].structField), err.errors[i].tag)
    {
      var jsonName := JsonFieldName(fields, err.errors[index].structField);
      m := m[index := MessageForTag(jsonName, err.errors[index].tag)];
      index := index + 1;
    }
    assert m == ValidationMessages(err, fields).value;
    messages := Some(m);
  }

  /**
   * `validationError[0]` as the handlers read it: the first message, or "" when
   * the map is nil or has no key 0 (indexing a Go map never fails).
   */
  function FirstMessage(messages: Option<map<nat, string>>): string
  {
    if messages.Some? && 0 in messages.value then messages.value[0] else ""
  }

  /**
   * The message a request body that does not bind is answered with: the
   * message for its first validation failure, and "" when the error is not a
   * list of validation failures (malformed JSON, for instance) or the list is
   * empty.
   */
  lemma FirstMessageOfBinding(err: ErrorValue, fields: seq<StructField>)
    ensures err.ValidationErrors? && |err.errors| > 0 ==>
      FirstMessage(ValidationMessages(err, fields))
      == MessageForTag(JsonFieldName(fields, err.errors[0].structField), err.errors[0].tag)
    ensures !err.ValidationErrors? || |err.errors| == 0 ==> FirstMessage(ValidationMessages(err, fields)) == ""
  {
  }
}
