/** Which fields of a struct become schema properties, and which of those are required,
    when required-ness is driven by the `jsonschema:"required"` tag term.

    A field is described by its Go identifier, the value of its `json` tag and the value
    of its `jsonschema` tag (each "" when the tag is absent). A field is left out of the
    schema when it is unexported, when its `json` tag is `-`, or when the first term of
    its `jsonschema` tag is `-`. A field that is left out is never required, whatever
    its tags say; a field that stays is required when one of its schema terms is
    `required`. Properties and required names keep the declaration order.
 */
module FieldRules {
  import opened TagSplit

  datatype Field = Field(name: string, jsonTag: string, schemaTag: string)

  // ---------------------------------------------------------------------------
  // One field
  // ---------------------------------------------------------------------------

  /** Go exports an identifier that starts with an upper-case letter. */
  predicate Exported(f: Field)
    ensures Exported(f) ==> f.name != ""
  {
    |f.name| > 0 && 'A' <= f.name[0] <= 'Z'
  }

  /** The name part of a `json` tag: everything before its first comma. */
  function JsonName(tag: string): (n: string)
    ensures n <= tag && ',' !in n
    ensures |n| < |tag| ==> tag[|n|] == ','
  {
    if |tag| == 0 || tag[0] == ',' then "" else [tag[0]] + JsonName(tag[1..])
  }

  /** A `json` tag without options is all name. */
  lemma {:induction false} JsonNameWithoutOptions(tag: string)
    requires ',' !in tag
    ensures JsonName(tag) == tag
  {
    if |tag| > 0 {
      assert ',' !in tag[1..] by {
        assert forall i :: 0 <= i < |tag[1..]| ==> tag[1..][i] == tag[i + 1];
      }
      JsonNameWithoutOptions(tag[1..]);
      assert [tag[0]] + tag[1..] == tag;
    }
  }

  /** `json:"-"` keeps the field out of the serialised form: its `json` name is `-`. */
  predicate IgnoredByJson(f: Field)
    ensures IgnoredByJson(f) ==> JsonName(f.jsonTag) == "-"
  {
    f.jsonTag == "-"
  }

  /** The terms of the `jsonschema` tag, split as the reflector splits them. */
  function SchemaTerms(f: Field): (terms: seq<string>)
    ensures |terms| >= 1
  {
    SplitOnUnescapedCommas(f.schemaTag)
  }

  /** A first schema term `-` excludes the field; later terms are never looked at.
      Such a tag starts with `-`. */
  predicate IgnoredBySchema(f: Field)
    ensures IgnoredBySchema(f) ==> |f.schemaTag| >= 1 && f.schemaTag[0] == '-'
  {
    if SchemaTerms(f)[0] == "-" then FirstTermHead(f.schemaTag); true else false
  }

  /** A field that stays in the schema always has a non-empty property name. */
  predicate InSchema(f: Field)
    ensures InSchema(f) ==> PropertyName(f) != ""
  {
    Exported(f) && !IgnoredByJson(f) && !IgnoredBySchema(f)
  }

  /** One of the schema terms is `required`, so the tag has at least its eight letters. */
  predicate TaggedRequired(f: Field)
    ensures TaggedRequired(f) ==> |f.schemaTag| >= |"required"|
  {
    if "required" in SchemaTerms(f) then TermNoLonger(f.schemaTag, "required"); true else false
  }

  /** Only a field that stays in the schema, and has a schema tag, can be required. */
  predicate IsRequired(f: Field)
    ensures IsRequired(f) ==> InSchema(f) && f.schemaTag != ""
  {
    InSchema(f) && TaggedRequired(f)
  }

  /** The property name: the `json` name when there is one, the identifier otherwise. */
  function PropertyName(f: Field): (n: string)
    ensures n == f.name || (n != "" && n <= f.jsonTag && ',' !in n)
    ensures n != f.name ==> n == JsonName(f.jsonTag)
    ensures JsonName(f.jsonTag) != "" ==> n == JsonName(f.jsonTag)
  {
    var j := JsonName(f.jsonTag);
    if j == "" then f.name else j
  }

  // ---------------------------------------------------------------------------
  // A struct: its fields in declaration order
  // ---------------------------------------------------------------------------

  /** What one field contributes to the properties: its name, if it stays. */
  function PropertyOf(f: Field): seq<string>
  {
    if InSchema(f) then [PropertyName(f)] else []
  }

  /** What one field contributes to the required names: its name, if it is required. */
  function RequiredOf(f: Field): seq<string>
  {
    if IsRequired(f) then [PropertyName(f)] else []
  }

  /** The property names of the fields that stay in the schema, in declaration order. */
  function Properties(fields: seq<Field>): (ps: seq<string>)
    ensures |ps| <= |fields|
  {
    if |fields| == 0 then [] else PropertyOf(fields[0]) + Properties(fields[1..])
  }

  /** The names the object's `required` list holds, in declaration order. */
  function RequiredNames(fields: seq<Field>): (rs: seq<string>)
    ensures |rs| <= |Properties(fields)| <= |fields|
  {
    if |fields| == 0 then [] else RequiredOf(fields[0]) + RequiredNames(fields[1..])
  }

  /** `a` is `b` with some elements removed, the rest kept in order. */
  predicate IsSubsequence(a: seq<string>, b: seq<string>)
    decreases |b|
  {
    if |a| == 0 then true
    else if |b| == 0 then false
    else if a[0] == b[0] then IsSubsequence(a[1..], b[1..])
    else IsSubsequence(a, b[1..])
  }

  // ---------------------------------------------------------------------------
  // Laws
  // ---------------------------------------------------------------------------

  /** A schema tag whose first term is `-` excludes the field, whatever follows it:
      `-,required` gives no property and no required name. */
  lemma DashFirstExcludes(f: Field)
    requires |f.schemaTag| >= 1 && f.schemaTag[0] == '-'
    requires |f.schemaTag| == 1 || f.schemaTag[1] == ','
    ensures IgnoredBySchema(f) && !InSchema(f) && !IsRequired(f)
  {
    if |f.schemaTag| == 1 {
      assert f.schemaTag == "-";
      NoCommas("-");
    } else {
      assert f.schemaTag == "-" + "," + f.schemaTag[2..];
      SplitTermThenSeparator("-", f.schemaTag[2..]);
    }
  }

  /** A name is a property exactly when some field that stays in the schema has it. */
  lemma {:induction false} PropertiesMembers(fields: seq<Field>, n: string)
    ensures n in Properties(fields) <==> exists f :: f in fields && InSchema(f) && PropertyName(f) == n
    decreases |fields|
  {
    if |fields| > 0 {
      PropertiesMembers(fields[1..], n);
      assert forall f :: f in fields <==> f == fields[0] || f in fields[1..];
    }
  }

  /** A name is required exactly when some required field has it. */
  lemma {:induction false} RequiredMembers(fields: seq<Field>, n: string)
    ensures n in RequiredNames(fields) <==> exists f :: f in fields && IsRequired(f) && PropertyName(f) == n
    decreases |fields|
  {
    if |fields| > 0 {
      RequiredMembers(fields[1..], n);
      assert forall f :: f in fields <==> f == fields[0] || f in fields[1..];
    }
  }

  /** Every required name is the name of a property. */
  lemma RequiredAreProperties(fields: seq<Field>, n: string)
    requires n in RequiredNames(fields)
    ensures n in Properties(fields)
  {
    RequiredMembers(fields, n);
    PropertiesMembers(fields, n);
  }

  lemma {:induction false} PropertiesConcat(a: seq<Field>, b: seq<Field>)
    ensures Properties(a + b) == Properties(a) + Properties(b)
    decreases |a|
  {
    if |a| > 0 {
      assert (a + b)[0] == a[0];
      assert (a + b)[1..] == a[1..] + b;
      PropertiesConcat(a[1..], b);
    } else {
      assert a + b == b;
    }
  }

  lemma {:induction false} RequiredConcat(a: seq<Field>, b: seq<Field>)
    ensures RequiredNames(a + b) == RequiredNames(a) + RequiredNames(b)
    decreases |a|
  {
    if |a| > 0 {
      assert (a + b)[0] == a[0];
      assert (a + b)[1..] == a[1..] + b;
      RequiredConcat(a[1..], b);
    } else {
      assert a + b == b;
    }
  }

  /** Each field contributes on its own, wherever it stands. */
  lemma FieldInContext(pre: seq<Field>, f: Field, post: seq<Field>)
    ensures Properties(pre + [f] + post) == Properties(pre) + PropertyOf(f) + Properties(post)
    ensures RequiredNames(pre + [f] + post) == RequiredNames(pre) + RequiredOf(f) + RequiredNames(post)
  {
    assert Properties(pre + [f] + post) == Properties(pre) + PropertyOf(f) + Properties(post) by {
      PropertiesConcat(pre + [f], post);
      PropertiesConcat(pre, [f]);
      assert [f][1..] == [];
      assert Properties([f]) == PropertyOf(f) + [];
      assert PropertyOf(f) + [] == PropertyOf(f);
    }
    assert RequiredNames(pre + [f] + post) == RequiredNames(pre) + RequiredOf(f) + RequiredNames(post) by {
      RequiredConcat(pre + [f], post);
      RequiredConcat(pre, [f]);
      assert [f][1..] == [];
      assert RequiredNames([f]) == RequiredOf(f) + [];
      assert RequiredOf(f) + [] == RequiredOf(f);
    }
  }

  /** A field that is left out (unexported, `json:"-"` or schema-excluded) changes
      neither the properties nor the required names, wherever it stands and however
      it is tagged. */
  lemma ExcludedFieldChangesNothing(pre: seq<Field>, f: Field, post: seq<Field>)
    requires !InSchema(f)
    ensures Properties(pre + [f] + post) == Properties(pre + post)
    ensures RequiredNames(pre + [f] + post) == RequiredNames(pre + post)
  {
    FieldInContext(pre, f, post);
    PropertiesConcat(pre, post);
    RequiredConcat(pre, post);
    assert PropertyOf(f) == [] && RequiredOf(f) == [];
    assert Properties(pre) + [] == Properties(pre);
    assert RequiredNames(pre) + [] == RequiredNames(pre);
  }

  lemma {:induction false} SubsequenceDropFirst(a: seq<string>, b: seq<string>)
    requires |a| >= 1 && IsSubsequence(a, b)
    ensures IsSubsequence(a[1..], b)
    decreases |b|, 0
  {
    if a[0] != b[0] {
      SubsequenceDropFirst(a, b[1..]);
    }
    SubsequenceSkip(a[1..], b[1..], b[0]);
    assert [b[0]] + b[1..] == b;
  }

  lemma {:induction false} SubsequenceSkip(a: seq<string>, b: seq<string>, x: string)
    requires IsSubsequence(a, b)
    ensures IsSubsequence(a, [x] + b)
    decreases |b|, 1
  {
    assert ([x] + b)[1..] == b;
    if |a| > 0 && a[0] == x {
      SubsequenceDropFirst(a, b);
    }
  }

  /** The required names appear in the order of the properties they name. */
  lemma {:induction false} RequiredInPropertyOrder(fields: seq<Field>)
    ensures IsSubsequence(RequiredNames(fields), Properties(fields))
    decreases |fields|
  {
    if |fields| > 0 {
      var f, rest := fields[0], fields[1..];
      RequiredInPropertyOrder(rest);
      var rs, ps := RequiredNames(rest), Properties(rest);
      if IsRequired(f) {
        var n := PropertyName(f);
        assert RequiredNames(fields) == [n] + rs && Properties(fields) == [n] + ps;
        assert ([n] + rs)[1..] == rs && ([n] + ps)[1..] == ps;
      } else if InSchema(f) {
        assert RequiredNames(fields) == rs && Properties(fields) == [PropertyName(f)] + ps;
        SubsequenceSkip(rs, ps, PropertyName(f));
      } else {
        assert RequiredNames(fields) == rs && Properties(fields) == ps;
      }
    }
  }
}
