# jsonschema struct-tag splitter and field rule, in Dafny

The jsonschema reflector turns Go struct types into JSON Schema documents. It is
driven by struct tags. A `jsonschema:"..."` tag is a list of terms separated by
commas. The reflector cuts that list into terms with `splitOnUnescapedCommas`:

- a comma splits the tag, unless the character just before it is a backslash;
- that backslash is then dropped, and the comma stays in the current term;
- every other backslash is kept;
- empty terms are kept;
- the input is read as characters, so multibyte code points stay whole.

This project models that splitter and proves the laws behind its table-driven test.
It also models the rule that the `SomeBaseType` fixture illustrates: which struct
fields become schema properties, and which of them go in the `required` list.

Modules:

- `TagSplit` (`tag_split.dfy`) holds the splitter and everything proved about it:
  - `SplitOnUnescapedCommas` is a recursive function. At each step it reads one
    character, or one escape pair `\,`.
  - Reference definitions are stated on positions of the whole input:
    - the separating commas (`SplitPoints`);
    - the input without its escaping backslashes (`Unescape`, `UnescapeRange`);
    - term boundaries (`TermStart`, `TermEnd`).
  - The lemmas tie the splitter to these definitions, to `Join` and to `Escape`.
  - `ScanTerms` is the one-pass loop form. It is proved equal to the function.
- `SplitTable` (`split_table.dfy`) proves each row of the test table. The rows are
  built up from the general laws, one delimiter at a time. `Table` holds the rows as
  pairs of tag and expected terms. `ScanTable` is the test driver: a loop that runs
  `ScanTerms` on each tag of the table in order.
- `FieldRules` (`field_rules.dfy`) holds the field rule:
  - a field is its Go identifier, its `json` tag and its `jsonschema` tag;
  - the schema tag is split with the same splitter;
  - `Properties` and `RequiredNames` give, in declaration order, the property names
    and the required names of a list of fields.
- `FieldFixtures` (`field_fixtures.dfy`) applies the rule to the fixtures
  `GrandfatherType` and `SomeBaseType`.

## Model

| member | source | states |
|---|---|---|
| TagSplit.SplitOnUnescapedCommas | reflect_test.go:417-433 | The splitter. It never returns an empty list. |
| TagSplit.Terms | reflect_test.go:422-426 | There is one more term than there are commas not immediately preceded by a backslash. Term `j` is the text between separator `j-1` and separator `j`, with each escaping backslash dropped. |
| TagSplit.SplitCount | reflect_test.go:422-426 | The number of terms is one more than the size of the set of positions holding a comma not immediately preceded by a backslash. |
| TagSplit.SplitPointsFromCount | reflect_test.go:422-426 | The list of separating commas names each of them exactly once: its length is the number of separating positions. |
| TagSplit.TermsNoLonger | reflect_test.go:422-426 | No term is longer than the input it was split from. |
| TagSplit.JoinSplit | reflect_test.go:422-426 | Joining the terms with "," gives the input minus the one backslash before each escaped comma. |
| TagSplit.SplitPointsFromSorted | reflect_test.go:422-426 | The separating commas are listed in increasing order. |
| TagSplit.SplitPointsFromComplete | reflect_test.go:422-426 | Every separating comma is listed. |
| TagSplit.NoCommas | reflect_test.go:424 | A string without commas is one term equal to the input, backslashes included. |
| TagSplit.BackslashKept | reflect_test.go:423 | A backslash that no comma follows is kept. It joins the last term before it to the first term after it. |
| TagSplit.SplitAtSeparator | reflect_test.go:422 | A comma not preceded by a backslash splits: the terms of the two sides are concatenated. |
| TagSplit.SplitAtEscapedComma | reflect_test.go:422 | An escape pair `\,` contributes a literal comma. The last term before it and the first term after it become one term. |
| TagSplit.SplitConcat | reflect_test.go:422-426 | Splitting a concatenation splits each side and merges the parts that meet at the junction. This holds unless the junction is itself an escape pair. |
| TagSplit.SplitTermThenSeparator | reflect_test.go:422 | A comma-free term without a trailing backslash, then a comma, gives that term as a part of its own. |
| TagSplit.SplitTermThenEscapedComma | reflect_test.go:422 | A comma-free term, then `\,`, is joined by a comma to the next term. |
| TagSplit.SplitEscape | reflect_test.go:422 | Putting a backslash before each comma of a term and splitting the result gives that one term back. |
| TagSplit.SplitJoinEscaped | reflect_test.go:422-426 | An escape-then-join round trip: escaping each term, joining with "," and splitting gives the terms back. This needs every term but the last to not end in a backslash. |
| TagSplit.ScanTerms | reflect_test.go:430 | The one-pass scan that accumulates terms returns exactly `SplitOnUnescapedCommas(s)`. |
| SplitTable.EscapedCommasStayInTerm | reflect_test.go:422 | The input `Hello,this,is\,a\,string,haha` gives `Hello`, `this`, `is,a,string`, `haha`. |
| SplitTable.DoubleBackslashKeepsOne | reflect_test.go:423 | The input `hello,no\\,split` gives `hello` and `no\,split`. The second backslash escapes the comma; the first is kept. |
| SplitTable.NoCommaIsOneTerm | reflect_test.go:424 | The input `string without commas` gives that string as its only term. |
| SplitTable.MultibyteCharactersSurvive | reflect_test.go:425 | The input `ünicode,𐂄,Ж\,П,ᠳ` gives `ünicode`, `𐂄`, `Ж,П`, `ᠳ`. `𐂄` is one character. |
| SplitTable.EmptyTermsKept | reflect_test.go:426 | The input `empty,,tag` gives `empty`, an empty term, and `tag`. |
| SplitTable.Table | reflect_test.go:418-427 | The five pairs of tag and expected terms; every expected list has at least one term. |
| SplitTable.TableRow | reflect_test.go:418-427 | Every row of the table holds: the splitter turns each tag into the row's expected terms. |
| SplitTable.ScanTable | reflect_test.go:429-432 | The loop over the table runs the scanning splitter on each tag. It returns one result per row, and each result is that row's expected list. |
| FieldRules.Exported | reflect_test.go:36-42 | An identifier that starts with an upper-case letter is exported; an exported identifier is never empty. |
| FieldRules.IgnoredByJson | reflect_test.go:37 | The `json` tag is exactly `-`; its `json` name is then `-`. |
| FieldRules.IgnoredBySchema | reflect_test.go:38 | The first schema term is `-`; such a schema tag starts with `-`. |
| FieldRules.TaggedRequired | reflect_test.go:27-41 | One of the schema terms is `required`; such a schema tag has at least eight characters. |
| FieldRules.JsonName | reflect_test.go:167 | The `json` name is a comma-free prefix of the tag. It stops at the first comma. |
| FieldRules.JsonNameWithoutOptions | reflect_test.go:27 | A `json` tag without options is all name. |
| FieldRules.PropertyName | reflect_test.go:27-41 | The `json` name when it is non-empty, otherwise the Go identifier. A `json` name is a non-empty, comma-free prefix of the `json` tag. |
| FieldRules.InSchema | reflect_test.go:30-42 | An exported field that neither `json:"-"` nor a first schema term `-` excludes. Such a field always has a non-empty property name. |
| FieldRules.IsRequired | reflect_test.go:33-41 | A field that stays in the schema and has a `required` schema term. A required field stays in the schema and has a non-empty schema tag. |
| FieldRules.Properties | reflect_test.go:30-42 | The names of the fields that stay in the schema, in declaration order; never more names than fields. |
| FieldRules.RequiredNames | reflect_test.go:33-41 | The names of the required fields, in declaration order; never more than the property names, and so never more than the fields. |
| FieldRules.DashFirstExcludes | reflect_test.go:38 | A schema tag whose first term is `-` excludes the field, whatever follows. `-,required` gives neither a property nor a required name. |
| FieldRules.ExcludedFieldChangesNothing | reflect_test.go:33-38 | A private, `json:"-"` or schema-excluded field, however tagged and wherever it stands, leaves the properties and the required names unchanged. |
| FieldRules.FieldInContext | reflect_test.go:30-42 | Each field contributes on its own, wherever it stands in the struct. |
| FieldRules.PropertiesMembers | reflect_test.go:30-42 | A name is a property if and only if some field that stays in the schema has it. |
| FieldRules.RequiredMembers | reflect_test.go:33-38 | A name is required if and only if some exported field that neither tag excludes is tagged `required` and has that name. |
| FieldRules.RequiredAreProperties | reflect_test.go:33-35 | Every required name is a property name. |
| FieldRules.RequiredInPropertyOrder | reflect_test.go:30-42 | The required names are a subsequence of the property names, in the same order. |
| FieldRules.PropertiesConcat | reflect_test.go:30-42 | The properties of two field lists placed one after the other are the properties of each, concatenated. |
| FieldRules.RequiredConcat | reflect_test.go:30-42 | The same holds for the required names. |
| FieldFixtures.GrandfatherTypeRequired | reflect_test.go:26-28 | `GrandfatherType` has the one property `family_name`, and it is required. |
| FieldFixtures.SomeBaseTypeRequired | reflect_test.go:30-42 | `SomeBaseType` has the properties `some_base_property`, `SomeBasePropertyYaml`, `grand` and `SomeUntaggedBaseProperty`, in that order. Its only required name is `SomeUntaggedBaseProperty`. This holds in the tag-driven mode, `RequiredFromJSONSchemaTags: true` (reflect_test.go:302). The private, `json:"-"` and `-,required` fields are left out although each is tagged `required`. |
| FieldFixtures.SomePrivateBasePropertyContributes | reflect_test.go:36 | An unexported field tagged `required` contributes nothing. |
| FieldFixtures.SomeIgnoredBasePropertyContributes | reflect_test.go:37 | A `json:"-"` field tagged `required` contributes nothing. |
| FieldFixtures.SomeSchemaIgnoredPropertyContributes | reflect_test.go:38 | A `jsonschema:"-,required"` field contributes nothing. |
| FieldFixtures.SomeUntaggedBasePropertyContributes | reflect_test.go:41 | An exported field without a `json` tag, tagged `required`, is a required property under its Go name. |
| FieldFixtures.SomeUnexportedUntaggedBasePropertyContributes | reflect_test.go:42 | An unexported untagged field contributes nothing. |

## Left out

- The Go definition of `splitOnUnescapedCommas` is not part of this model. The model follows the table test at reflect_test.go:417-433 instead. A comma counts as escaped exactly when the input character just before it is a backslash, so `\\,` ends in an escape pair. Thus `hello,no\\,split` gives two parts, `hello` and `no\,split`: the comma is escaped, and there is no split after the kept backslash.
- The meaning of schema terms other than `-` and `required` is left out. This covers `key=value` terms, repeatable keys such as `enum`, semicolon sub-lists, and the extras tag. These feed the schema builder, which is not modelled.
- Go strings are bytes, the model's are code points. The only characters the splitter looks at, backslash and comma, are ASCII and never occur inside a multibyte UTF-8 sequence. So the two readings give the same terms.
- The reflection engine is left out: `Reflector`, `Reflect`, `ReflectFromType`, `SetBaseSchemaID`, `Mapper`, `Lookup`, `AdditionalFields`, type mapping, references and definitions. Its Go source is not part of this model, and it works over Go's runtime type information.
- The engine's other `required` modes are left out. The field model is the tag-driven one, `RequiredFromJSONSchemaTags: true` (reflect_test.go:302), where `required` comes from the `jsonschema` tag. How the default mode decides required-ness is outside what reflect_test.go states.
- Nested schemas, embedded-struct promotion and inlining are left out. A field contributes only its name: `Grandfather` is the property `grand`, and the schema of `GrandfatherType` under it is not built.
- `yaml` tags are left out. A field without a `json` name takes its Go identifier as its property name, as `SomeBasePropertyYaml` does without the prefer-YAML option.
- FieldRules.Properties: colliding property names are not modelled. When two fields that stay in the schema share a property name, the list repeats that name, while the schema's ordered `properties` mapping would hold it once.
- FieldRules.RequiredNames: colliding names are not modelled in the same way. The list may repeat a name that the schema's ordered `required` set would hold once.
- FieldRules.IgnoredByJson: only the exact `json` tag `-` ignores a field. A tag such as `-,` or `-,omitempty` has the name `-`, so the field becomes a property named `-`. reflect_test.go shows only the exact `json:"-"`.
- FieldRules.Exported: only an ASCII capital counts as the upper-case first letter that Go's export rule asks for. Exported identifiers starting with other upper-case letters are not modelled.
- Fixture comparison and update I/O (reflect_test.go:398-415) and the command-line flags (23-24) are left out. They are file and process I/O around the test.
- `AddGoComments` (388) is left out: it parses Go source files from disk.
- Float-valued enums (96, 101) are left out: they are floating-point and their expected output is not stated.
- The `JSONSchema()` override methods (120-125, 179-186, 226-257) and the ordered-map library they use are left out.
- `oneof_required` grouping (127-140) is left out: its expected output is not stated.
- `GetFieldDocString` (195-208) is left out: it is a constant switch that only feeds descriptions into the engine.
