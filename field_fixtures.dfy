/** The test fixtures `GrandfatherType` and `SomeBaseType` as field lists, with the
    properties and required names the tag-driven rule gives them. Each field is a
    function of its own, named after the Go field. */
module FieldFixtures {
  import opened TagSplit
  import opened FieldRules

  // ---------------------------------------------------------------------------
  // How a field's tags decide what it contributes
  // ---------------------------------------------------------------------------

  /** A field without a schema tag stays in the schema when it is exported and not
      ignored by `json`, and is not required. */
  lemma Untagged(f: Field)
    requires f.schemaTag == ""
    ensures SchemaTerms(f) == [""]
    ensures InSchema(f) == (Exported(f) && !IgnoredByJson(f)) && !IsRequired(f)
  {
  }

  /** A schema tag without commas is one term. */
  lemma SingleTerm(f: Field)
    requires ',' !in f.schemaTag
    ensures SchemaTerms(f) == [f.schemaTag]
    ensures IgnoredBySchema(f) <==> f.schemaTag == "-"
    ensures TaggedRequired(f) <==> f.schemaTag == "required"
  {
    NoCommas(f.schemaTag);
  }

  /** A schema tag that is just `required`. */
  lemma TaggedRequiredOnly(f: Field)
    requires f.schemaTag == "required"
    ensures SchemaTerms(f) == ["required"]
    ensures InSchema(f) == (Exported(f) && !IgnoredByJson(f)) && TaggedRequired(f)
  {
    SingleTerm(f);
  }

  /** A `json` tag without options names the property. */
  lemma NamedByJson(f: Field, n: string)
    requires f.jsonTag == n && n != "" && ',' !in n
    ensures PropertyName(f) == n
  {
    JsonNameWithoutOptions(n);
  }

  /** A field that stays in the schema under the name `n`. */
  lemma Kept(f: Field, n: string)
    requires InSchema(f) && PropertyName(f) == n
    ensures PropertyOf(f) == [n]
    ensures RequiredOf(f) == if TaggedRequired(f) then [n] else []
  {
  }

  /** A field that is left out contributes nothing. */
  lemma Dropped(f: Field)
    requires !InSchema(f)
    ensures PropertyOf(f) == [] && RequiredOf(f) == []
  {
  }

  /** The fields from `i` on contribute what field `i` does, then what the rest do. */
  lemma Step(fs: seq<Field>, i: nat, p: seq<string>, r: seq<string>)
    requires i < |fs|
    requires Properties(fs[i + 1..]) == p && RequiredNames(fs[i + 1..]) == r
    ensures Properties(fs[i..]) == PropertyOf(fs[i]) + p
    ensures RequiredNames(fs[i..]) == RequiredOf(fs[i]) + r
  {
    assert fs[i..][0] == fs[i] && fs[i..][1..] == fs[i + 1..];
  }

  // ---------------------------------------------------------------------------
  // GrandfatherType
  // ---------------------------------------------------------------------------

  function FamilyNameField(): Field
  {
    Field("FamilyName", "family_name", "required")
  }

  function GrandfatherType(): seq<Field>
  {
    [FamilyNameField()]
  }

  lemma FamilyNameName()
    ensures PropertyName(FamilyNameField()) == "family_name"
  {
    NamedByJson(FamilyNameField(), "family_name");
  }

  lemma FamilyNameRule()
    ensures InSchema(FamilyNameField()) && TaggedRequired(FamilyNameField())
  {
    TaggedRequiredOnly(FamilyNameField());
  }

  /** The one field of `GrandfatherType` is required under its `json` name. */
  lemma GrandfatherTypeRequired()
    ensures Properties(GrandfatherType()) == ["family_name"]
    ensures RequiredNames(GrandfatherType()) == ["family_name"]
  {
    var fs := GrandfatherType();
    FamilyNameName();
    FamilyNameRule();
    Kept(fs[0], "family_name");
    Step(fs, 0, [], []);
    assert fs[0..] == fs;
  }

  // ---------------------------------------------------------------------------
  // SomeBaseType
  // ---------------------------------------------------------------------------

  function SomeBasePropertyField(): Field
  {
    Field("SomeBaseProperty", "some_base_property", "")
  }

  function SomeBasePropertyYamlField(): Field
  {
    Field("SomeBasePropertyYaml", "", "")
  }

  function SomePrivateBasePropertyField(): Field
  {
    Field("somePrivateBaseProperty", "", "required")
  }

  function SomeIgnoredBasePropertyField(): Field
  {
    Field("SomeIgnoredBaseProperty", "-", "required")
  }

  function SomeSchemaIgnoredPropertyField(): Field
  {
    Field("SomeSchemaIgnoredProperty", "", "-,required")
  }

  function GrandfatherField(): Field
  {
    Field("Grandfather", "grand", "")
  }

  function SomeUntaggedBasePropertyField(): Field
  {
    Field("SomeUntaggedBaseProperty", "", "required")
  }

  function SomeUnexportedUntaggedBasePropertyField(): Field
  {
    Field("someUnexportedUntaggedBaseProperty", "", "")
  }

  function SomeBaseType(): seq<Field>
  {
    [ SomeBasePropertyField(),
      SomeBasePropertyYamlField(),
      SomePrivateBasePropertyField(),
      SomeIgnoredBasePropertyField(),
      SomeSchemaIgnoredPropertyField(),
      GrandfatherField(),
      SomeUntaggedBasePropertyField(),
      SomeUnexportedUntaggedBasePropertyField() ]
  }

  lemma SomeBasePropertyName()
    ensures PropertyName(SomeBasePropertyField()) == "some_base_property"
  {
    NamedByJson(SomeBasePropertyField(), "some_base_property");
  }

  lemma SomeBasePropertyRule()
    ensures InSchema(SomeBasePropertyField()) && !TaggedRequired(SomeBasePropertyField())
  {
    Untagged(SomeBasePropertyField());
  }

  lemma SomeBasePropertyContributes()
    ensures PropertyOf(SomeBasePropertyField()) == ["some_base_property"] && RequiredOf(SomeBasePropertyField()) == []
  {
    SomeBasePropertyName();
    SomeBasePropertyRule();
    Kept(SomeBasePropertyField(), "some_base_property");
  }

  lemma SomeBasePropertyYamlName()
    ensures PropertyName(SomeBasePropertyYamlField()) == "SomeBasePropertyYaml"
  {
  }

  lemma SomeBasePropertyYamlRule()
    ensures InSchema(SomeBasePropertyYamlField()) && !TaggedRequired(SomeBasePropertyYamlField())
  {
    Untagged(SomeBasePropertyYamlField());
  }

  lemma SomeBasePropertyYamlContributes()
    ensures PropertyOf(SomeBasePropertyYamlField()) == ["SomeBasePropertyYaml"] && RequiredOf(SomeBasePropertyYamlField()) == []
  {
    SomeBasePropertyYamlName();
    SomeBasePropertyYamlRule();
    Kept(SomeBasePropertyYamlField(), "SomeBasePropertyYaml");
  }

  lemma SomePrivateBasePropertyContributes()
    ensures PropertyOf(SomePrivateBasePropertyField()) == [] && RequiredOf(SomePrivateBasePropertyField()) == []
  {
    Dropped(SomePrivateBasePropertyField());
  }

  lemma SomeIgnoredBasePropertyContributes()
    ensures PropertyOf(SomeIgnoredBasePropertyField()) == [] && RequiredOf(SomeIgnoredBasePropertyField()) == []
  {
    Dropped(SomeIgnoredBasePropertyField());
  }

  lemma SomeSchemaIgnoredPropertyContributes()
    ensures PropertyOf(SomeSchemaIgnoredPropertyField()) == [] && RequiredOf(SomeSchemaIgnoredPropertyField()) == []
  {
    DashFirstExcludes(SomeSchemaIgnoredPropertyField());
    Dropped(SomeSchemaIgnoredPropertyField());
  }

  lemma GrandfatherName()
    ensures PropertyName(GrandfatherField()) == "grand"
  {
    NamedByJson(GrandfatherField(), "grand");
  }

  lemma GrandfatherRule()
    ensures InSchema(GrandfatherField()) && !TaggedRequired(GrandfatherField())
  {
    Untagged(GrandfatherField());
  }

  lemma GrandfatherContributes()
    ensures PropertyOf(GrandfatherField()) == ["grand"] && RequiredOf(GrandfatherField()) == []
  {
    GrandfatherName();
    GrandfatherRule();
    Kept(GrandfatherField(), "grand");
  }

  lemma SomeUntaggedBasePropertyName()
    ensures PropertyName(SomeUntaggedBasePropertyField()) == "SomeUntaggedBaseProperty"
  {
  }

  lemma SomeUntaggedBasePropertyRule()
    ensures InSchema(SomeUntaggedBasePropertyField()) && TaggedRequired(SomeUntaggedBasePropertyField())
  {
    TaggedRequiredOnly(SomeUntaggedBasePropertyField());
  }

  lemma SomeUntaggedBasePropertyContributes()
    ensures PropertyOf(SomeUntaggedBasePropertyField()) == ["SomeUntaggedBaseProperty"] && RequiredOf(SomeUntaggedBasePropertyField()) == ["SomeUntaggedBaseProperty"]
  {
    SomeUntaggedBasePropertyName();
    SomeUntaggedBasePropertyRule();
    Kept(SomeUntaggedBasePropertyField(), "SomeUntaggedBaseProperty");
  }

  lemma SomeUnexportedUntaggedBasePropertyContributes()
    ensures PropertyOf(SomeUnexportedUntaggedBasePropertyField()) == [] && RequiredOf(SomeUnexportedUntaggedBasePropertyField()) == []
  {
    Dropped(SomeUnexportedUntaggedBasePropertyField());
  }

  /** Four fields in a row contribute, in order, what each contributes on its own. */
  lemma FourProperties(fs: seq<Field>, i: nat)
    requires i + 4 <= |fs|
    ensures Properties(fs[i..]) == PropertyOf(fs[i]) + (PropertyOf(fs[i + 1]) + (PropertyOf(fs[i + 2]) + (PropertyOf(fs[i + 3]) + (Properties(fs[i + 4..])))))
  {
    Step(fs, i + 3, Properties(fs[i + 4..]), RequiredNames(fs[i + 4..]));
    Step(fs, i + 2, Properties(fs[i + 3..]), RequiredNames(fs[i + 3..]));
    Step(fs, i + 1, Properties(fs[i + 2..]), RequiredNames(fs[i + 2..]));
    Step(fs, i, Properties(fs[i + 1..]), RequiredNames(fs[i + 1..]));
  }

  lemma FourRequired(fs: seq<Field>, i: nat)
    requires i + 4 <= |fs|
    ensures RequiredNames(fs[i..]) == RequiredOf(fs[i]) + (RequiredOf(fs[i + 1]) + (RequiredOf(fs[i + 2]) + (RequiredOf(fs[i + 3]) + (RequiredNames(fs[i + 4..])))))
  {
    Step(fs, i + 3, Properties(fs[i + 4..]), RequiredNames(fs[i + 4..]));
    Step(fs, i + 2, Properties(fs[i + 3..]), RequiredNames(fs[i + 3..]));
    Step(fs, i + 1, Properties(fs[i + 2..]), RequiredNames(fs[i + 2..]));
    Step(fs, i, Properties(fs[i + 1..]), RequiredNames(fs[i + 1..]));
  }

  /** Eight fields contribute, in order, what each contributes on its own. */
  lemma EightProperties(fs: seq<Field>)
    requires |fs| == 8
    ensures Properties(fs) == PropertyOf(fs[0]) + (PropertyOf(fs[1]) + (PropertyOf(fs[2]) + (PropertyOf(fs[3]) + (PropertyOf(fs[4]) + (PropertyOf(fs[5]) + (PropertyOf(fs[6]) + (PropertyOf(fs[7]))))))))
  {
    assert Properties(fs[4..]) == PropertyOf(fs[4]) + (PropertyOf(fs[5]) + (PropertyOf(fs[6]) + (PropertyOf(fs[7])))) by {
      FourProperties(fs, 4);
      assert Properties(fs[8..]) == [];
      assert PropertyOf(fs[7]) + [] == PropertyOf(fs[7]);
    }
    FourProperties(fs, 0);
    assert fs[0..] == fs;
  }

  lemma EightRequired(fs: seq<Field>)
    requires |fs| == 8
    ensures RequiredNames(fs) == RequiredOf(fs[0]) + (RequiredOf(fs[1]) + (RequiredOf(fs[2]) + (RequiredOf(fs[3]) + (RequiredOf(fs[4]) + (RequiredOf(fs[5]) + (RequiredOf(fs[6]) + (RequiredOf(fs[7]))))))))
  {
    assert RequiredNames(fs[4..]) == RequiredOf(fs[4]) + (RequiredOf(fs[5]) + (RequiredOf(fs[6]) + (RequiredOf(fs[7])))) by {
      FourRequired(fs, 4);
      assert RequiredNames(fs[8..]) == [];
      assert RequiredOf(fs[7]) + [] == RequiredOf(fs[7]);
    }
    FourRequired(fs, 0);
    assert fs[0..] == fs;
  }

  lemma SomeBaseTypeFields(fs: seq<Field>)
    requires fs == SomeBaseType()
    ensures |fs| == 8
    ensures fs[0] == SomeBasePropertyField()
    ensures fs[1] == SomeBasePropertyYamlField()
    ensures fs[2] == SomePrivateBasePropertyField()
    ensures fs[3] == SomeIgnoredBasePropertyField()
    ensures fs[4] == SomeSchemaIgnoredPropertyField()
    ensures fs[5] == GrandfatherField()
    ensures fs[6] == SomeUntaggedBasePropertyField()
    ensures fs[7] == SomeUnexportedUntaggedBasePropertyField()
  {
  }

  lemma SomeBaseTypeNames()
    ensures ["some_base_property"] + (["SomeBasePropertyYaml"] + ([] + ([] + ([] + (["grand"] + (["SomeUntaggedBaseProperty"] + ([])))))))
         == ["some_base_property", "SomeBasePropertyYaml", "grand", "SomeUntaggedBaseProperty"]
    ensures [] + ([] + ([] + ([] + ([] + ([] + (["SomeUntaggedBaseProperty"] + ([])))))))
         == ["SomeUntaggedBaseProperty"]
  {
  }

  /** Of the eight fields of `SomeBaseType` four are properties. The private field, the
      `json:"-"` field and the `-,required` field are left out although each is tagged
      `required`, and the one required name is that of the exported field tagged
      `required`. */
  lemma SomeBaseTypeRequired()
    ensures Properties(SomeBaseType()) == ["some_base_property", "SomeBasePropertyYaml", "grand", "SomeUntaggedBaseProperty"]
    ensures RequiredNames(SomeBaseType()) == ["SomeUntaggedBaseProperty"]
  {
    SomeBasePropertyContributes();
    SomeBasePropertyYamlContributes();
    SomePrivateBasePropertyContributes();
    SomeIgnoredBasePropertyContributes();
    SomeSchemaIgnoredPropertyContributes();
    GrandfatherContributes();
    SomeUntaggedBasePropertyContributes();
    SomeUnexportedUntaggedBasePropertyContributes();
    var fs := SomeBaseType();
    SomeBaseTypeFields(fs);
    EightProperties(fs);
    EightRequired(fs);
    SomeBaseTypeNames();
  }
}
