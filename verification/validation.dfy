/**
  Structural validation of a posted form schema, as the `validate` struct tags
  on `Field` and `Form` and the custom `fieldtype` rule define it.

  The validator walks the struct's fields in declaration order; for each
  field it stops at the first tag that fails, and it reports every failing
  field (it does not stop at the first one). The result is therefore the list
  of failing (field, tag) pairs, and the form is accepted exactly when the
  list is empty.
 */
module Validation {
  import opened Wrappers

  /** One input of a form (`labelText` is the JSON member `label`). `placeholder` carries no validation tag. */
  datatype Field = Field(labelText: string, fieldType: string, name: string, placeholder: string)

  /**
    A form schema. `fields` is `None` when the JSON body has no `fields`
    member (a nil slice), which is different from an empty list.
   */
  datatype Form = Form(title: string, fields: Option<seq<Field>>)

  /** The keys of `validFieldTypes`. */
  const FieldTypes: set<string> := {"text", "email", "textarea", "number", "date", "checkbox"}

  /** The custom `fieldtype` rule: membership in the fixed table of types. */
  function IsFieldType(t: string): (ok: bool)
    ensures ok <==> t == "text" || t == "email" || t == "textarea" || t == "number" || t == "date" || t == "checkbox"
    ensures ok ==> t != ""
  {
    t in FieldTypes
  }

  predicate IsAsciiAlnum(c: char)
  {
    'a' <= c <= 'z' || 'A' <= c <= 'Z' || '0' <= c <= '9'
  }

  /** The `alphanum` rule: one or more ASCII letters or digits, nothing else. */
  predicate IsAlnumString(s: string)
  {
    |s| > 0 && forall i :: 0 <= i < |s| ==> IsAsciiAlnum(s[i])
  }

  /** What a valid field is, stated directly. */
  predicate ValidField(f: Field)
  {
    && f.labelText != ""
    && IsFieldType(f.fieldType)
    && IsAlnumString(f.name)
  }

  /** What a valid form is, stated directly: an empty list of fields is allowed. */
  predicate ValidForm(f: Form)
  {
    && f.title != ""
    && f.fields.Some?
    && forall i :: 0 <= i < |f.fields.value| ==> ValidField(f.fields.value[i])
  }

  datatype Tag = Required | FieldTypeTag | AlphaNum
  datatype Attr = Label | Type | Name
  datatype Path = Title | Fields | FieldAt(index: nat, attr: Attr)

  /** One entry of the validator's error list: where it failed and on which tag. */
  datatype FieldError = FieldError(path: Path, tag: Tag)

  /** Failing `tag` on attribute `attr` is a rule that `fd` really breaks. */
  predicate BreaksRule(fd: Field, attr: Attr, tag: Tag)
  {
    match attr
    case Label => tag == Required && fd.labelText == ""
    case Type =>
      (tag == Required && fd.fieldType == "")
      || (tag == FieldTypeTag && fd.fieldType != "" && !IsFieldType(fd.fieldType))
    case Name =>
      (tag == Required && fd.name == "")
      || (tag == AlphaNum && fd.name != "" && !IsAlnumString(fd.name))
  }

  /** The error `e` names a rule that the form really breaks. */
  predicate Justified(f: Form, e: FieldError)
  {
    match e.path
    case Title => e.tag == Required && f.title == ""
    case Fields => e.tag == Required && f.fields.None?
    case FieldAt(i, attr) =>
      f.fields.Some? && i < |f.fields.value| && BreaksRule(f.fields.value[i], attr, e.tag)
  }

  /** The errors of the field at position `i`: label, then type, then name. */
  function CheckField(fd: Field, i: nat): (errs: seq<FieldError>)
    ensures errs == [] <==> ValidField(fd)
    ensures forall e :: e in errs ==>
              e.path.FieldAt? && e.path.index == i && BreaksRule(fd, e.path.attr, e.tag)
    ensures forall e: FieldError :: e.path.FieldAt? && e.path.index == i && BreaksRule(fd, e.path.attr, e.tag) ==>
              e in errs
  {
    (if fd.labelText == "" then [FieldError(FieldAt(i, Label), Required)] else [])
    + (if fd.fieldType == "" then [FieldError(FieldAt(i, Type), Required)]
       else if !IsFieldType(fd.fieldType) then [FieldError(FieldAt(i, Type), FieldTypeTag)]
       else [])
    + (if fd.name == "" then [FieldError(FieldAt(i, Name), Required)]
       else if !IsAlnumString(fd.name) then [FieldError(FieldAt(i, Name), AlphaNum)]
       else [])
  }

  /** The `dive` over the list, numbering the elements from `start`. */
  function CheckFields(fs: seq<Field>, start: nat): (errs: seq<FieldError>)
    ensures errs == [] <==> forall i :: 0 <= i < |fs| ==> ValidField(fs[i])
    decreases |fs|
  {
    if |fs| == 0 then [] else CheckField(fs[0], start) + CheckFields(fs[1..], start + 1)
  }

  /** Every error of the list names a field of the list and a rule that field breaks. */
  lemma {:induction false} CheckFieldsBlame(fs: seq<Field>, start: nat)
    ensures forall e :: e in CheckFields(fs, start) ==>
              && e.path.FieldAt? && start <= e.path.index < start + |fs|
              && BreaksRule(fs[e.path.index - start], e.path.attr, e.tag)
    decreases |fs|
  {
    if |fs| > 0 {
      var head := CheckField(fs[0], start);
      var tail := CheckFields(fs[1..], start + 1);
      assert CheckFields(fs, start) == head + tail;
      CheckFieldsBlame(fs[1..], start + 1);
      forall e: FieldError | e in head + tail
        ensures && e.path.FieldAt? && start <= e.path.index < start + |fs|
                && BreaksRule(fs[e.path.index - start], e.path.attr, e.tag)
      {
        if e !in head {
          assert e in tail;
          assert fs[1..][e.path.index - (start + 1)] == fs[e.path.index - start];
        }
      }
    }
  }

  /** Every rule that a field of the list breaks is reported, under that field's index. */
  lemma {:induction false} CheckFieldsComplete(fs: seq<Field>, start: nat)
    ensures forall e: FieldError ::
              && e.path.FieldAt? && start <= e.path.index < start + |fs|
              && BreaksRule(fs[e.path.index - start], e.path.attr, e.tag)
              ==> e in CheckFields(fs, start)
    decreases |fs|
  {
    if |fs| > 0 {
      var head := CheckField(fs[0], start);
      var tail := CheckFields(fs[1..], start + 1);
      assert CheckFields(fs, start) == head + tail;
      CheckFieldsComplete(fs[1..], start + 1);
      forall e: FieldError |
        && e.path.FieldAt? && start <= e.path.index < start + |fs|
        && BreaksRule(fs[e.path.index - start], e.path.attr, e.tag)
        ensures e in head + tail
      {
        if e.path.index == start {
          assert e in head;
        } else {
          assert fs[1..][e.path.index - (start + 1)] == fs[e.path.index - start];
          assert e in tail;
        }
      }
    }
  }

  /** The validator's verdict on a whole form: the list of failing rules. */
  function ValidateForm(f: Form): (errs: seq<FieldError>)
    ensures errs == [] <==> ValidForm(f)
    ensures forall e :: e in errs ==> Justified(f, e)
    ensures forall e :: Justified(f, e) ==> e in errs
  {
    (if f.title == "" then [FieldError(Title, Required)] else [])
    + match f.fields
      case None => [FieldError(Fields, Required)]
      case Some(fs) => CheckFieldsBlame(fs, 0); CheckFieldsComplete(fs, 0); CheckFields(fs, 0)
  }

  /** Every invalid field is reported, under its own index. */
  lemma {:induction false} BadFieldReported(fs: seq<Field>, start: nat, i: nat)
    requires i < |fs| && !ValidField(fs[i])
    ensures exists e :: e in CheckFields(fs, start) && e.path.FieldAt? && e.path.index == start + i
    decreases |fs|
  {
    var head := CheckField(fs[0], start);
    var tail := CheckFields(fs[1..], start + 1);
    assert CheckFields(fs, start) == head + tail;
    if i == 0 {
      assert head != [];
      assert head[0] in head + tail;
    } else {
      BadFieldReported(fs[1..], start + 1, i - 1);
      var e :| e in tail && e.path.FieldAt? && e.path.index == start + i;
      assert e in head + tail;
    }
  }

  /** One invalid field rejects the whole form, and the error names that field. */
  lemma OneBadFieldRejectsForm(f: Form, i: nat)
    requires f.fields.Some? && i < |f.fields.value| && !ValidField(f.fields.value[i])
    ensures ValidateForm(f) != []
    ensures exists e :: e in ValidateForm(f) && e.path.FieldAt? && e.path.index == i
  {
    BadFieldReported(f.fields.value, 0, i);
    var e :| e in CheckFields(f.fields.value, 0) && e.path.FieldAt? && e.path.index == i;
    assert e in ValidateForm(f);
  }

  /** The two forms differ at most in their placeholders. */
  predicate SameButPlaceholders(f: Form, g: Form)
  {
    && f.title == g.title
    && f.fields.Some? == g.fields.Some?
    && (f.fields.Some? ==>
          && |f.fields.value| == |g.fields.value|
          && forall i :: 0 <= i < |f.fields.value| ==>
               f.fields.value[i].(placeholder := "") == g.fields.value[i].(placeholder := ""))
  }

  lemma {:induction false} PlaceholderIgnoredInFields(fs: seq<Field>, gs: seq<Field>, start: nat)
    requires |fs| == |gs|
    requires forall i :: 0 <= i < |fs| ==> fs[i].(placeholder := "") == gs[i].(placeholder := "")
    ensures CheckFields(fs, start) == CheckFields(gs, start)
    decreases |fs|
  {
    if |fs| > 0 {
      assert fs[0].(placeholder := "") == gs[0].(placeholder := "");
      assert CheckField(fs[0], start) == CheckField(gs[0], start);
      PlaceholderIgnoredInFields(fs[1..], gs[1..], start + 1);
      assert CheckFields(fs, start) == CheckField(fs[0], start) + CheckFields(fs[1..], start + 1);
      assert CheckFields(gs, start) == CheckField(gs[0], start) + CheckFields(gs[1..], start + 1);
    }
  }

  /** `placeholder` never influences the verdict nor the reported errors. */
  lemma PlaceholderIgnored(f: Form, g: Form)
    requires SameButPlaceholders(f, g)
    ensures ValidateForm(f) == ValidateForm(g)
  {
    if f.fields.Some? {
      PlaceholderIgnoredInFields(f.fields.value, g.fields.value, 0);
    }
  }
}
