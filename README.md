# Scripting defines store

A Dafny model of the define store in the ScriptingDefinesEditor Unity plugin, `DefinesConfig` in
`Scripts/DefinesConfig.cs`. The store is an ordered list of define/status pairs. It turns into one
`;`-separated string of enabled scripting-define symbols, the form the host's player settings
take. It also takes such a string back in as an additive merge.

- `text.dfy`, module `Text`: the string operations the store relies on. These are joining with
  `;`, .NET `String.Split(';')`, and `Char.IsWhiteSpace` / `String.IsNullOrWhiteSpace`. The
  module also proves the round trips between splitting and joining.
- `define_list.dfy`, module `DefineList`: the `DefineStatusPair` value (a define string and a
  status flag) and the parameterless constructor's placeholder `("NEW_DEFINE", false)`. It also
  holds the functions that specify the three operations on a list of pairs:
  - `Serialized` for the getter;
  - `Upsert` for `AddDefine`;
  - `MergeEnabled` over `KeptSegments` for the setter.
- `defines_config.dfy`, module `ScriptingDefines`: class `DefinesConfig` with a `definesList`
  field. Its methods are written as the source writes them:
  - the getter is a loop over the list with a string accumulator;
  - `AddDefine` is a loop that updates matching entries in place and then appends when none
    matched;
  - the setter is a loop that calls `AddDefine` once for each kept segment.

  Each method is proved against the matching specification function.
- `properties.dfy`, module `DefineListProperties`: what the getter, setter and upsert promise.
  This includes the getter-then-setter round trip and the worked examples.

The getter is specified independently of its loop. It returns the enabled defines in list order,
joined by `;`, after dropping the enabled empty defines that come before the first non-empty
one. This is exactly what the code does, because it decides on the separator by testing whether
the accumulator is still empty. So an enabled empty define disappears while nothing has been
written yet, and gives `;;` once something has. A whitespace-only enabled define is written out
unchanged. The getter does not filter out empty or whitespace-only defines
(`SerializedLeadingEmptyExample`, `SerializedInnerEmptyExample`).

## Model

| member | source | states |
|---|---|---|
| `ScriptingDefines.DefinesConfig.constructor` | Scripts/DefinesConfig.cs:41 | A new store holds an empty list. |
| `ScriptingDefines.DefinesConfig.GetDefinesString` | Scripts/DefinesConfig.cs:19-29 | The accumulator loop returns `Serialized(definesList)`: the enabled defines in list order, joined by `;`, with leading enabled empty defines dropped. |
| `ScriptingDefines.DefinesConfig.SetDefinesString` | Scripts/DefinesConfig.cs:30-35 | The new list is the old one with each kept segment of `value` upserted as enabled, in order (`MergeEnabled(old, KeptSegments(value))`). |
| `ScriptingDefines.DefinesConfig.AddDefine` | Scripts/DefinesConfig.cs:48-60 | The in-place loop followed by the conditional append leaves exactly `Upsert(old list, define, status)`. |
| `DefineList.DefineStatusPair` | Scripts/DefinesConfig.cs:67-97 | A pair holds exactly the define and status it was built from, as the two-argument constructor stores them. |
| `DefineList.NewDefinePair` | Scripts/DefinesConfig.cs:82-86 | The parameterless constructor gives the define `NEW_DEFINE` with status disabled. |
| `DefineList.Serialized` | Scripts/DefinesConfig.cs:19-29 | The getter's reference definition. It returns `""` when no pair is enabled. |
| `DefineList.AppendIfEnabled` | Scripts/DefinesConfig.cs:24-25 | One iteration of the getter's loop. A disabled pair leaves the accumulator as it was. |
| `DefineList.IsKeptSegment` | Scripts/DefinesConfig.cs:33 | The setter's `Where` filter keeps a segment exactly when it holds at least one character that is not white space. |
| `Text.IsWhiteSpace` | Scripts/DefinesConfig.cs:33 | The white-space characters the filter tests for. None of them is `;`, and all lie at or below U+3000, inside the Basic Multilingual Plane. |
| `Text.IsWhiteSpaceOnly` | Scripts/DefinesConfig.cs:33 | `String.IsNullOrWhiteSpace` on a non-null string. A whitespace-only string holds no `;`. |
| `DefineList.MergeEnabled` | Scripts/DefinesConfig.cs:30-35 | The setter's reference definition, applied to the kept segments in order. The list grows by at most one entry per segment and never shrinks. |
| `DefineList.Upsert` | Scripts/DefinesConfig.cs:48-60 | Every entry named `d` takes status `s`. Other entries keep their status. Order and defines are unchanged. The length is unchanged when `d` was present. Otherwise exactly `(d, s)` is appended at the end. |
| `DefineList.SetStatus` | Scripts/DefinesConfig.cs:51-56 | The scan updates every match, not just the first: same length, same defines, status `s` exactly where the define is `d`. |
| `DefineList.UpsertSetsEveryMatch` | Scripts/DefinesConfig.cs:51-59 | After an upsert of `d`, `d` is present and every entry named `d` has status `s`, duplicates included. |
| `DefineList.UpsertKeepsDistinct` | Scripts/DefinesConfig.cs:50-59 | An upsert keeps the defines of the list pairwise distinct. |
| `DefineList.EnabledDefines` | Scripts/DefinesConfig.cs:22-24 | A string is among the collected defines exactly when some enabled entry has that define. |
| `DefineList.DropLeadingEmpty` | Scripts/DefinesConfig.cs:25 | The result is a suffix of the input. Everything dropped is empty, and the result is empty or starts with a non-empty define. |
| `DefineList.DropLeadingEmptyAppend` | Scripts/DefinesConfig.cs:25 | Appending one define either starts the output (when nothing non-empty came before) or extends it. |
| `DefineList.SerializedStep` | Scripts/DefinesConfig.cs:24-25 | Serializing one more pair is one iteration of the getter's loop. A disabled pair adds nothing. An enabled one is appended, after a `;` unless the string so far is empty. |
| `DefineList.AccumulatedIsSerialized` | Scripts/DefinesConfig.cs:21-28 | The getter's pair-by-pair accumulation equals the enabled defines joined by `;` once leading empty ones are dropped. |
| `DefineList.KeepSegments` | Scripts/DefinesConfig.cs:32-33 | A segment is kept exactly when it is a segment of the split string and is neither empty nor whitespace-only. |
| `Text.Split` | Scripts/DefinesConfig.cs:32 | `String.Split(';')` gives one segment more than the string has separators, empty ones included, and no segment holds a `;`. |
| `Text.Join` | Scripts/DefinesConfig.cs:25 | A joined string starts with its first segment, followed by a `;` when there are more. |
| `Text.JoinAppend` | Scripts/DefinesConfig.cs:25 | Joining one more segment appends `;` and the segment. |
| `Text.SplitJoin` | Scripts/DefinesConfig.cs:21-34 | Splitting undoes joining when no segment holds a `;`. |
| `Text.JoinSplit` | Scripts/DefinesConfig.cs:32 | Joining the segments of any string gives the string back. |
| `Text.SplitWithoutSeparator` | Scripts/DefinesConfig.cs:32 | A string without a `;` splits into itself alone. |
| `Text.SplitAfterSegment` | Scripts/DefinesConfig.cs:32 | A leading segment followed by a `;` splits off as the first segment. |
| `DefineListProperties.SerializedJoinsEnabled` | Scripts/DefinesConfig.cs:21-28 | When no enabled define is empty, the getter returns exactly the enabled defines, in list order, joined by `;`. |
| `DefineListProperties.SerializedEmptyIff` | Scripts/DefinesConfig.cs:21-24 | The getter returns `""` if and only if every enabled define is empty, in particular when no pair is enabled. |
| `DefineListProperties.EnabledDefinesConcat` | Scripts/DefinesConfig.cs:22-24 | The enabled defines of two lists placed one after the other are those of the first followed by those of the second. |
| `DefineListProperties.DisabledPairIgnored` | Scripts/DefinesConfig.cs:24 | A disabled pair, wherever it stands, does not change the getter's output. |
| `DefineListProperties.NewDefinePairIgnored` | Scripts/DefinesConfig.cs:82-86 | A pair made by the parameterless constructor (`NEW_DEFINE`, disabled) does not change the getter's output. |
| `DefineListProperties.SerializedOmitsDisabledExample` | Scripts/DefinesConfig.cs:21-28 | `[(A, on), (B, off)]` gives `"A"`; `[(X1, on), (X2, on)]` gives `"X1;X2"`. |
| `DefineListProperties.SerializedLeadingEmptyExample` | Scripts/DefinesConfig.cs:25 | `[("", on), (A, on)]` gives `"A"`: the leading empty define is swallowed. A blank `" "` define is written as `" "`. |
| `DefineListProperties.SerializedInnerEmptyExample` | Scripts/DefinesConfig.cs:25 | `[(A, on), ("", on), (B, on)]` gives `"A;;B"`. |
| `DefineListProperties.MergeEnablesSegments` | Scripts/DefinesConfig.cs:32-34 | After the setter, every kept segment names an entry, and every entry named by a kept segment is enabled. |
| `DefineListProperties.SetterEnablesValueSegments` | Scripts/DefinesConfig.cs:30-35 | For a string `value`, every segment of its split that is neither empty nor blank names an entry after the setter, and every entry it names is enabled. |
| `DefineListProperties.MergeKeepsExisting` | Scripts/DefinesConfig.cs:32-34 | The setter is additive. The list never shrinks, and existing entries keep their place and their define. An entry that no kept segment names keeps its status. |
| `DefineListProperties.MergeAppendsNew` | Scripts/DefinesConfig.cs:32-34 | Entries the setter adds come after the old ones. They are enabled, pairwise distinct, and named by kept segments that named no old entry. |
| `DefineListProperties.MergeGrowthBound` | Scripts/DefinesConfig.cs:32-34 | The setter grows the list by at most the number of distinct kept segments that named no existing entry. |
| `DefineListProperties.MergeKeepsDistinct` | Scripts/DefinesConfig.cs:32-34 | The setter keeps the defines of the list distinct if they were. |
| `DefineListProperties.UpsertEnabledUnchanged` | Scripts/DefinesConfig.cs:48-60 | Enabling a define that is present and enabled wherever it appears changes nothing. |
| `DefineListProperties.MergeEnabledUnchanged` | Scripts/DefinesConfig.cs:32-34 | Merging segments that all name present, enabled entries changes nothing. |
| `DefineListProperties.KeptSegmentsOfSerialized` | Scripts/DefinesConfig.cs:17-35 | Every segment the setter keeps from the getter's string is an enabled define, when no enabled define holds a `;`. |
| `DefineListProperties.SetterAfterGetter` | Scripts/DefinesConfig.cs:17-35 | When defines are distinct and no enabled define holds a `;`, feeding the getter's string back to the setter leaves the list unchanged. |
| `DefineListProperties.SplitExample` | Scripts/DefinesConfig.cs:32 | `"A;B;B; ;C"` splits into `A`, `B`, `B`, `" "`, `C`. |
| `DefineListProperties.KeepSegmentsExample` | Scripts/DefinesConfig.cs:33 | Of those segments, the blank one is dropped. |
| `DefineListProperties.KeptSegmentsExample` | Scripts/DefinesConfig.cs:32-33 | The setter upserts `A`, `B`, `B`, `C` for `"A;B;B; ;C"`. |
| `DefineListProperties.MergeEnabledExample` | Scripts/DefinesConfig.cs:48-60 | Upserting `A`, `B`, `B`, `C` as enabled into an empty list gives `A`, `B`, `C` once each. |
| `DefineListProperties.SetterExample` | Scripts/DefinesConfig.cs:30-35 | Setting `"A;B;B; ;C"` on an empty store gives `[(A, on), (B, on), (C, on)]`. |

## Left out

- `Scripts/ScriptingDefinesWindow.cs` is not part of this model. It is Unity editor plumbing:
  the `OnGUI` layout, play-mode gating, the reorderable list callbacks, asset loading and
  creation, directory creation, and the `PlayerSettings` read and write. Its one piece of logic
  is to reload when the target group changed or no config is loaded. It matters only against
  the host runtime.
- `Scripts/DefinesConfigEditor.cs` is not part of this model. It is an inspector override with
  no logic.
- The save path is left out. It writes the getter's string as the whole compile-symbol set, and
  that recompiles the project. The same goes for `ScriptableObject` persistence and
  `EditorUtility.SetDirty`. All of these are calls into the host.
- In the source, `DefineStatusPair` is a class and the list holds references to it. The model
  treats pairs as values in a `seq`. Two slots that share one pair object, and edits made to a
  pair through another reference (as the editor window does when renaming or toggling), are not
  modelled.
- The setter computes the filtered segments before its loop rather than lazily. This is
  equivalent, because `AddDefine` does not read the string being split.
- `null` strings are not modelled. In the host, the setter on `null` would throw.
- `Text.IsWhiteSpace` is a fixed set: the characters .NET's `Char.IsWhiteSpace` classifies as
  white space in current Unicode versions (U+0009–U+000D, U+0020, U+0085, U+00A0, U+1680,
  U+2000–U+200A, U+2028, U+2029, U+202F, U+205F, U+3000). A different runtime's Unicode tables
  are not modelled.
- Strings are sequences of Unicode scalar values, not UTF-16 code units. This changes nothing
  here, because every character the code tests is in the Basic Multilingual Plane.
