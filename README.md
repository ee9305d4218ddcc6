# AutoEnum: a verified model of case- and punctuation-insensitive enum lookup

`AutoEnum` is a `str`/`Enum` base class. Its members can be looked up by any
spelling that differs from the member's name only in letter case and in the
separators `' -_.:;,'`. A member may also be declared with `alias(...)`, which
adds more spellings. On first use, a class builds a lookup table
(`_value2member_map_normalized_`) from normalised key to member and caches it
on the class. The table is built in declaration order and raises a collision
error when two spellings of different members normalise alike. `from_str` is
the lookup. `matches`, `matches_any` and `does_not_match_any` are predicates
over it. `display_name` renders a member's name for people. The `convert_*`
helpers rewrite dicts, lists, tuples and sets, swapping strings for members or
members for their names.

The model has one module per concern:

- `Normalization` (`normalize.dfy`): the normaliser, `str.translate` with the removal table.
- `Members` (`members.dfy`): members, lookup inputs, errors, `alias(...)` and the string form of an alias list.
- `Lookup` (`lookup.dfy`): the table build.
  - `FillPrefix`/`BuildTable` are its specification, replaying the fill member by member.
  - `Admissible` says declaratively when the build succeeds.
  - `FillTable`/`RegisterMember` are the nested loops of `_initialize_lookup`, proved equal to the specification.
- `Resolve` (`resolve.dfy`): `from_str` and the three predicates, over a build that publishes its table only when it succeeds.
- `AutoEnumType` (`autoenum.dfy`): class `AutoEnum`, holding the cached table as mutable state.
  - It has a corrected initialiser and the initialiser as written (see Findings).
- `Display` (`display.dfy`): `display_name`, with Python's `split`, `join`, `lower` and `capitalize` on ASCII.
- `Dicts` (`dicts.dfy`): Python dicts as insertion-ordered entries with distinct keys, and `d[k] = v`.
- `Convert` (`convert.dfy`): the `convert_*` loops, each proved equal to a specification function.
- `Wrappers` (`wrappers.dfy`): `Option` and `Result`.

Two behaviours of the code are modelled as written:

- Lines 93-94 insert the key of the alias-list string without a collision check. It overwrites whatever the key held, including an earlier member's alias (`Lookup.CompositeKeyOverwrites`).
- Aliases are checked against the running table. So an alias repeated within one member fails, unless it is the member's own name.

## Model

| member | source | states |
|---|---|---|
| Normalization.Normalize | src/autoenum.py:128-131 | `str(x).translate` with the removal table: the reference recursion that deletes a separator and lower-cases anything else. It carries no contract of its own, and its properties are the lemmas below |
| Normalization.NormalizeIsNormal | src/autoenum.py:19-22 | The normal form has no upper-case A–Z and none of `' -_.:;,'`, and it is never longer than the input |
| Normalization.NormalizeIsLowerOfStrip | src/autoenum.py:129-131 | Normalising deletes every separator and lower-cases every other character, keeping their order |
| Normalization.NormalizeIdempotent | src/autoenum.py:129-131 | Normalising twice gives the same string as normalising once |
| Normalization.NormalizeKeepsNormal | src/autoenum.py:129-131 | A string with no upper-case letter and no separator is its own normal form |
| Normalization.NormalizeAppend | src/autoenum.py:129-131 | The normal form of a concatenation is the concatenation of the normal forms |
| Normalization.NormalizeSeparators | src/autoenum.py:21 | A string made only of separators normalises to the empty string |
| Normalization.NormalizeIgnoresCase | src/autoenum.py:19-20 | Two strings that agree after lower-casing have the same normal form |
| Normalization.NormalizeUpperLower | src/autoenum.py:19-20 | Upper-casing or lower-casing a string keeps its normal form |
| Members.NewAlias | src/autoenum.py:7-13 | An empty call fails with EmptyAlias. The call succeeds exactly when every argument is a string, and then keeps them all in order. Otherwise the error names the first non-string argument |
| Members.AliasValue | src/autoenum.py:15-16 | `str(alias(...))` starts with "alias:[", the prefix line 92 tests for, and ends with ']' |
| Members.AliasValueKeyHasBracket | src/autoenum.py:15-16 | The key of an alias list's string form keeps its '[' |
| Members.IdentKeyHasNoBracket | src/autoenum.py:85 | The key of an identifier name has no '[' |
| Members.AliasValueKeyNotIdentifierKey | src/autoenum.py:92-94 | The key of an alias list never equals the key of an identifier name |
| Lookup.FillPrefix | src/autoenum.py:84-105 | The specification of the fill: members registered one after the other in declaration order, stopping at the first collision. It has no contract of its own; FillPrefixSpec and the lemmas below state its properties |
| Lookup.BuildTable | src/autoenum.py:81-105 | The whole build: the finished table, or the collision the fill raised. Its properties are in BuildTableAdmissible and the lemmas below |
| Lookup.RegisterKeys | src/autoenum.py:85-97 | A member registers its name's key, each alias's key and, when aliased, the key of its alias list |
| Lookup.AddAliasesSpec | src/autoenum.py:96-105 | The alias loop raises exactly when some alias that is not the member's own name meets a key already present or an earlier alias's key. Otherwise it adds exactly the aliases' keys |
| Lookup.FillPrefixSpec | src/autoenum.py:84-105 | The fill over the first n members raises nothing exactly when each member fits the keys registered before it, and then holds exactly their keys |
| Lookup.FillPrefixValues | src/autoenum.py:91-105 | After n members without error, every entry names one of those n members |
| Lookup.FillPrefixStops | src/autoenum.py:87-90 | Once the fill raises, no later member changes the table or the error |
| Lookup.FillPrefixRaisesCollision | src/autoenum.py:87-104 | The only error the fill raises is a collision |
| Lookup.FillPrefixResolves | src/autoenum.py:91-105 | A name or alias key of member i maps to i, unless a later member's alias-list key is the same |
| Lookup.BuildTableAdmissible | src/autoenum.py:81-105 | The build succeeds exactly when the declaration is admissible. The table then holds exactly the registered keys, each mapping to a member. A failure is a collision |
| Lookup.NameCollisionRejected | src/autoenum.py:85-90 | The build fails when a member's name has the key of an earlier member's name, alias or alias list |
| Lookup.AliasCollisionRejected | src/autoenum.py:96-104 | The build fails when an alias that is not the member's own name has the key of an earlier member's name, alias or alias list |
| Lookup.BuildMapsSpellingsToMember | src/autoenum.py:91-105 | After a successful build, a member's name and aliases map to it, unless a later alias-list key overwrote the entry |
| Lookup.BuildMapsNameToMember | src/autoenum.py:91 | After a successful build, a member whose name is an identifier is always found under its name's key |
| Lookup.CompositeKeyOverwrites | src/autoenum.py:93-94 | A later member's alias-list key takes over an earlier alias with the same key |
| Lookup.BuildKeysDisjoint | src/autoenum.py:84-105 | After a successful build, no two members share the key of a name or alias |
| Lookup.FillTable | src/autoenum.py:83-105 | The outer loop's table and raised error are those of the specification fill |
| Lookup.FillStep | src/autoenum.py:84-105 | One pass of the outer loop over member i turns the table the earlier members filled into the fill over i + 1 members |
| Lookup.RegisterMember | src/autoenum.py:85-105 | One pass of the outer loop, the name check and insert, then the alias-list insert, then the alias loop, gives the specification's registration of the member |
| Lookup.InsertAliases | src/autoenum.py:96-105 | The alias loop, which skips the member's own name, stops at the first alias whose key is present and otherwise inserts it, gives the specification's alias registration |
| Resolve.LookupText | src/autoenum.py:123-126 | A key in the table gives its member. A strict miss raises NotFound naming the input, and a lenient miss gives None |
| Resolve.FromStr | src/autoenum.py:107-126 | A member comes back as itself. A lenient `None` gives None. A string, or a lenient object, is looked up by its normalised `str()`: after a successful build the result is the table's member, `NotFound` on a strict miss or None on a lenient miss (by LookupText's contract); after a failed build it is the build's collision. NotAString is raised exactly for a strict None or non-string. A strict call never gives None |
| Resolve.FromStrInRange | src/autoenum.py:116-126 | What `from_str` returns is a member of the class |
| Resolve.FromStrDependsOnKeyOnly | src/autoenum.py:123 | Strings with equal normal forms resolve alike, and a strict call succeeds for both or for neither |
| Resolve.FromStrCaseInsensitive | src/autoenum.py:19-20 | Two strings that differ only in letter case resolve alike: the same result when lenient, and when strict both succeed with the same member or both fail |
| Resolve.FromStrIgnoresSeparator | src/autoenum.py:21 | Inserting one of `' -_.:;,'` anywhere in a string keeps what it resolves to, in both modes |
| Resolve.StrictAgreesWithLenient | src/autoenum.py:118-126 | A strict lookup finds what a lenient one finds, and raises NotFound where the lenient one gives None |
| Resolve.FromStrFindsSpelling | src/autoenum.py:91-123 | After a successful build, a member's name or alias resolves to it in both modes, unless a later alias-list key is the same |
| Resolve.FromStrFindsName | src/autoenum.py:91-123 | After a successful build, a member's identifier name resolves to it |
| Resolve.Matches | src/autoenum.py:59-60 | `m.matches(v)` holds exactly when the lenient lookup returns m, and raises when the lookup raises |
| Resolve.MatchesAny | src/autoenum.py:62-64 | `matches_any(v)` holds exactly when the lenient lookup finds a member, and raises when it raises |
| Resolve.DoesNotMatchAny | src/autoenum.py:66-68 | `does_not_match_any` is the negation of `matches_any`, and raises exactly when it raises |
| Resolve.MatchesAnyIffSomeMatches | src/autoenum.py:59-64 | `matches_any(v)` holds exactly when some member `matches(v)` |
| Resolve.OnlyOwnerMatchesSpelling | src/autoenum.py:59-68 | After a successful build, a member's name or alias is matched by that member and no other, so `does_not_match_any` is false for it, unless a later member's alias-list key is the same |
| AutoEnumType.AutoEnum.constructor | src/autoenum.py:82 | A new class has no cached table |
| AutoEnumType.AutoEnum.InitializeLookup | src/autoenum.py:81-105 | On first call: no error exactly when the build succeeds. A successful build caches the table. A failed build leaves the class uncached. Later calls change nothing |
| AutoEnumType.AutoEnum.InitializeLookupAsWritten | src/autoenum.py:81-105 | On first call the class is marked as cached and holds the table and error of the fill, whether or not it raised. Later calls change nothing |
| AutoEnumType.AutoEnum.FromStr | src/autoenum.py:107-126 | The class's lookup returns exactly `Resolve.FromStr`. A member, a lenient None or a strict non-string changes nothing. A class that is already cached stays unchanged. After the call the class is cached exactly when it was before, or the input needed the table and the build succeeded, and a cached table is always a successful build's table |
| AutoEnumType.AutoEnum.FromStrAsWritten | src/autoenum.py:107-126 | A member, a lenient None or a strict non-string returns at once and changes nothing. Any input that needs the table, a string or a lenient object, marks the class cached, whether or not the fill raised. Such an input is looked up in the cached table once the class was cached or the fill succeeded. On a first call whose fill raised, it gets the fill's error |
| AutoEnumType.ClashingFill | src/autoenum.py:83-91 | For members `A_B` and `AB`, the fill inserts "ab" for `A_B` and then raises on `AB` |
| AutoEnumType.PartialTableAfterCollision | src/autoenum.py:82-91 | As written, the second `from_str("AB")` returns `A_B` after the first has raised |
| AutoEnumType.CollisionRaisedEveryTime | src/autoenum.py:82-91 | With the corrected initialiser, every `from_str("AB")` raises the collision |
| Display.Split | src/autoenum.py:77 | Python's `s.split('_')` on one character: every occurrence splits and empty parts are kept, so there is always at least one part |
| Display.Join | src/autoenum.py:75 | Python's `sep.join(parts)`: no contract of its own. JoinSplit and SplitJoin relate it to Split |
| Display.Capitalize | src/autoenum.py:76 | `word.capitalize()` upper-cases the first character and leaves no upper-case letter after it, keeping the length and the letters up to case |
| Display.DisplayWord | src/autoenum.py:76 | A stop word (`of`, `in`, `the`, in any case) renders with no upper-case letter; any other word renders with its first character upper-cased and no upper-case letter after it; the length is kept |
| Display.DisplayName | src/autoenum.py:74-78 | `display_name(sep=sep)`: the rendered `_`-separated words of the name, joined with sep. Its properties are DisplayNameWords, DisplayNameNormalizes and FromStrFindsDisplayName |
| Display.SplitCount | src/autoenum.py:77 | `split('_')` yields one more part than the name has underscores |
| Display.SplitPartsFree | src/autoenum.py:77 | No part of a split holds the separator |
| Display.JoinSplit | src/autoenum.py:75-77 | Joining a split's parts with the separator gives the string back |
| Display.SplitJoin | src/autoenum.py:75-77 | Splitting a join of a non-empty list of separator-free parts gives the parts back |
| Display.DisplayWordCase | src/autoenum.py:76 | A displayed word differs from the word only in letter case |
| Display.DisplayNameCasing | src/autoenum.py:74-78 | With a one-character separator that is not an ASCII letter and does not occur in the name, each word of a display name is the matching `_`-separated part of the name up to case: all lower-case for a stop word, otherwise upper-case first and no capital after |
| Display.DisplayNameExample | src/autoenum.py:74-78 | The display name of `TYPE_OF_SERVICE` with the default separator is "Type of Service" |
| Display.DisplayNameWords | src/autoenum.py:74-78 | With a one-character separator that is not an ASCII letter and does not occur in the name, a display name splits back into one rendered word per `_`-separated part of the name |
| Display.DisplayNameNormalizes | src/autoenum.py:74-78 | With a separator of deleted characters, such as the default " ", a display name normalises to the member's key |
| Display.FromStrFindsDisplayName | src/autoenum.py:74-78 | After a successful build, `from_str(m.display_name())` returns m |
| Dicts.Put | src/autoenum.py:144-146 | `d[k] = v` keeps the keys distinct |
| Dicts.PutSpec | src/autoenum.py:144-146 | After `d[k] = v`, k maps to v and the keys are those of d plus k. Every other entry keeps its key, value and place. An existing key keeps the length, and a new key is appended last |
| Dicts.FromEntriesKeys | src/autoenum.py:141-147 | A dict filled by successive writes holds exactly the keys written |
| Dicts.FromEntriesLastWins | src/autoenum.py:141-147 | A dict filled by successive writes keeps, for each key, the last value written under it |
| Dicts.FromEntriesDistinct | src/autoenum.py:157-163 | Writing distinct keys in order puts the entries side by side, in that order |
| Dicts.RebuildDistinct | src/autoenum.py:198-204 | Rewriting a dict's own keys in order with new values keeps every key in its place |
| Convert.ResolveItem | src/autoenum.py:143-146 | A string item fails exactly when the build fails. An item that changes was a string and becomes the member the lenient lookup found. A string that resolves becomes its member |
| Convert.StrItem | src/autoenum.py:159-160 | `str(k)` of a member key or value gives its name. The result is never a member, and anything that is not a member is kept |
| Convert.ResolveAll | src/autoenum.py:214-220 | The walk succeeds exactly when every item does. It then gives an item-by-item result of the same length. It fails with the build's error |
| Convert.ConvertItem | src/autoenum.py:216-219 | `matches_any` followed by the strict `from_str` resolves or keeps an item |
| Convert.LookupItem | src/autoenum.py:143-146 | The lenient `from_str` on a key or value resolves or keeps it |
| Convert.ConvertList | src/autoenum.py:206-220 | `convert_list` is the item-by-item walk |
| Convert.ConvertSet | src/autoenum.py:222-236 | `convert_set` fails exactly when the build fails and the set holds a string. Otherwise it gives the set of resolved-or-kept items |
| Convert.ConvertKeys | src/autoenum.py:133-147 | `convert_keys` rebuilds the dict from the resolved-or-kept keys and the original values, later writes winning. It fails exactly when a key fails |
| Convert.ConvertKeysToStr | src/autoenum.py:149-163 | `convert_keys_to_str` rebuilds the dict with member keys replaced by their names |
| Convert.ConvertDictValues | src/autoenum.py:190-204 | `convert_dict_values` rebuilds the dict from the original keys and the resolved-or-kept values. It fails exactly when a value fails |
| Convert.ConvertValuesToStr | src/autoenum.py:238-252 | `convert_values_to_str` rebuilds the dict with member values replaced by their names |
| Convert.ConvertValues | src/autoenum.py:165-188 | Dicts, lists, tuples and sets go to their converter and keep their kind. Anything else is returned as it is, or rejected when `raise_error` is set |
| Convert.ResolveAllFails | src/autoenum.py:214-220 | A conversion fails exactly when the table cannot be built and some item is a string |
| Convert.ResolveItemIdempotent | src/autoenum.py:143-146 | Resolving an already resolved item changes nothing |
| Convert.ResolveAllIdempotent | src/autoenum.py:214-220 | Converting a converted list again gives the same list |
| Convert.StrThenResolveItem | src/autoenum.py:248-249 | After a successful build, a member's name resolves back to the member |
| Convert.StrThenResolveAll | src/autoenum.py:214-220 | After a successful build, converting members to names and then resolving gives the same result as resolving alone |
| Convert.DictValuesInPlace | src/autoenum.py:198-204 | `convert_dict_values` keeps every key in its place and converts the value beside it |
| Convert.ValuesToStrRoundTrip | src/autoenum.py:246-252 | After a successful build, `convert_dict_values(convert_values_to_str(d))` equals `convert_dict_values(d)` |
| Convert.ConvertedKeysLastWins | src/autoenum.py:141-147 | In `convert_keys`, each converted key carries the value of the last entry converted to it |
| Convert.ConvertedKeysInPlace | src/autoenum.py:141-147 | When no two keys convert alike, `convert_keys` keeps every value in its place under its converted key |
| Convert.KeysRoundTrip | src/autoenum.py:133-163 | `convert_keys_to_str(convert_keys(d))` gives d back, as long as no key is a member, every key that resolves is spelled exactly as its member's name, and no two keys convert alike |
| Convert.KeysToStrNames | src/autoenum.py:157-163 | `convert_keys_to_str` leaves no member key, and every key of d, with members replaced by their names, is a key of the result |

## Left out

- Members.Value: a member of another AutoEnum class is modelled as the string of its name (`Text`), so as a dict key or set element it merges with that plain string; in Python the two stay distinct, because `__eq__` is identity (src/autoenum.py:53-54) and `__hash__` hashes "Cls.name" (src/autoenum.py:51).
- `_missing_`, `_generate_next_value_`, `__repr__`, the `str` property, `__hash__` and `display_names` are left out. They are `Enum` and Pydantic plumbing, or only a `str()` of a list. Members are records identified by their position, and `__eq__`/`__ne__` (identity) is equality of positions.
- Python's `Enum` turns a member whose value equals an earlier member's value into an alias of that member. The model takes the member list as given, so two members declared with identical `alias(...)` lists are not merged.
- The `literal_eval` at line 95 is not modelled. Aliases are taken directly from the declared list.
- Members.Quote: renders an alias in the alias-list string between single quotes, without Python's `repr` escaping of quotes, backslashes and non-printable characters. So the composite key of such an alias differs from the source's.
- A member counts as aliased when its alias list is non-empty. This stands in for `e.value.startswith('alias:')`. An `auto()` member's value is its name, an identifier, which cannot start with "alias:".
- `str(x)` of a non-string, non-`None` input is a parameter of the input (`Object(text)`). `str.lower` and `str.capitalize` are modelled on ASCII only. `translate` maps only A–Z, so the normaliser is exact on any characters.
- `raise_error` is modelled as a boolean. The source's `is True`/`is False` tests on other objects are not modelled.
- Resolve.FromStr: assumes the build publishes its table only when it succeeds, as the corrected initialiser does. The converters, `matches`, `matches_any` and `does_not_match_any` use this lookup, not the class's cached state. Their behaviour after a failed as-written build is not modelled.
- Lazy caching is modelled by the `initialized` flag of `AutoEnumType.AutoEnum`. Concurrent first use, which the source does not guard, is left out.
- Containers hold flat values. A nested list or dict is an opaque `Object`, and `convert_values` does not recurse into it either.
- Convert.KeysRoundTrip: `convert_keys` followed by `convert_keys_to_str` gives a dict back only under that lemma's conditions. Otherwise the mapping is not recovered. A key `"a_b"` comes back as the member's name `"A_B"`. A member key comes back as its name string. Two keys that resolve to the same member merge, and the later value wins.
- Set iteration order, and so which element's lookup raises first, is not modelled. Every failing lookup raises the same build error.

## Findings

| source | as written | input that shows it | evidently intended | confidence | as-written member | corrected member |
|---|---|---|---|---|---|---|
| src/autoenum.py:82-91 | Line 83 attaches the empty dict to the class before the loop fills it. A collision raised at line 87 or 101 leaves the partly filled dict attached. Line 82 then sees it, so every later call skips the build and resolves against the partial table | Members `A_B` and `AB`: the first `from_str("AB")` raises the collision, and the second returns `A_B`, a different member | A failed build leaves no usable table, so every lookup raises the collision again | high; not executed | AutoEnumType.PartialTableAfterCollision | AutoEnumType.AutoEnum.InitializeLookup |
