# indiek-mockdb search-query builder, modelled in Dafny

indiek-mockdb is a mock database for the indiek note and knowledge-management
library. Its search entry point, `build_search_query` in
`indiek/mockdb/search.py`, turns a free-text query into a case-insensitive
regular expression:

1. it tokenizes the text with Python's argument-less `str.split()`;
2. it joins the terms with `|`;
3. it wraps the result in `(` and `)`;
4. it compiles that with `re.IGNORECASE`.

The model has two modules.

- `PyStr` (`pystr.dfy`) models the two Python string operations the builder uses.
  - `IsSpace` is the white-space set of `str.isspace()`.
  - `Split` is `str.split()`. It is defined by a left-to-right scanner, `Scan`.
  - `Join` is `sep.join`.
  - `SplitOn` is `str.split(sep)` with a one-character separator. The builder does not call it. It is a reference inverse of `Join`, used only in proofs, to show that the joined terms can be recovered.
  - The module also proves the properties of these operations that the builder relies on.
- `Search` (`search.dfy`) models `build_search_query`.
  - `BuildPattern` gives the pattern text.
  - `BuildSearchQuery` gives the pattern together with the ignore-case flag (`Query`).
  - The module proves the properties of the pattern: its shape, the empty case, no white space, term order and count, independence from white-space layout, and that terms are not escaped.

White space is the set Python's `str.isspace()` accepts:
- TAB, LF, VT, FF and CR (code points 9-13);
- the separators FS, GS, RS and US (28-31);
- SPACE;
- U+0085, U+00A0 and U+1680;
- U+2000-U+200A;
- U+2028, U+2029, U+202F and U+205F;
- U+3000.

This is an assumption about the Python runtime's Unicode database. `str.split()` itself is not part of this model's source.

## Model

| member | source | states |
|---|---|---|
| `PyStr.Scan` | indiek/mockdb/search.py:6 | the left-to-right tokenizer behind `str.split()` only ever emits terms that are non-empty and free of white space |
| `PyStr.Split` | indiek/mockdb/search.py:6 | every term of `s.split()` is non-empty and contains no white space |
| `PyStr.SplitConcat` | indiek/mockdb/search.py:6 | the terms, concatenated in order, are exactly the input with all white space removed (order kept, nothing else lost) |
| `PyStr.SplitBlank` | indiek/mockdb/search.py:6 | `s.split()` is empty if and only if `s` is empty or all white space |
| `PyStr.SplitWord` | indiek/mockdb/search.py:6 | a single white-space-free non-empty word splits to itself |
| `PyStr.SplitAround` | indiek/mockdb/search.py:6 | any non-empty white-space run separates the input into two halves that split independently, with results concatenated |
| `PyStr.SplitRunLength` | indiek/mockdb/search.py:6 | replacing a white-space run by a single space does not change the terms |
| `PyStr.SplitTrim` | indiek/mockdb/search.py:6 | leading and trailing white space does not change the terms |
| `PyStr.SplitJoinSpace` | indiek/mockdb/search.py:6 | joining valid terms with one space and splitting again returns the same terms (round trip) |
| `PyStr.SplitNormalize` | indiek/mockdb/search.py:6 | re-tokenizing the space-joined terms of any input returns the same terms |
| `PyStr.SplitCount` | indiek/mockdb/search.py:6 | each non-white-space character occurs in the terms exactly as often as in the input |
| `PyStr.Join` | indiek/mockdb/search.py:6 | no terms give the empty string; n >= 1 terms give a string as long as their characters plus n - 1 separators |
| `PyStr.JoinCount` | indiek/mockdb/search.py:6 | joining n >= 1 terms with a one-character separator adds exactly n - 1 separator characters and keeps every term character |
| `PyStr.JoinNoSpace` | indiek/mockdb/search.py:6 | joining white-space-free terms with a white-space-free separator yields no white space |
| `PyStr.SplitOnJoin` | indiek/mockdb/search.py:6 | cutting the joined text at the separator recovers the terms when no term contains the separator (join's inverse) |
| `Search.BuildPattern` | indiek/mockdb/search.py:5-7 | the pattern begins with `(`, ends with `)`, and holds the `\|`-joined terms between them |
| `Search.BuildSearchQuery` | indiek/mockdb/search.py:4-8 | the query carries the pattern of the input and is always flagged case-insensitive, whatever the input |
| `Search.BlankPattern` | indiek/mockdb/search.py:5-7 | the pattern is exactly `()` if and only if the input is empty or all white space |
| `Search.WordPattern` | indiek/mockdb/search.py:5-7 | a single word `w` gives `(w)` |
| `Search.PatternNoSpace` | indiek/mockdb/search.py:5-7 | the pattern contains no white-space character |
| `Search.PatternCount` | indiek/mockdb/search.py:5-7 | for n >= 1 terms the pattern holds the input's own `\|` characters plus exactly n - 1 inserted ones, the input's own `(` and `)` plus one enclosing pair, and every other non-white-space character exactly as often as the input |
| `Search.PatternAlternatives` | indiek/mockdb/search.py:5-7 | for a non-blank input without `\|`, the inner text cut at `\|` is exactly the input's terms in order |
| `Search.PatternInjective` | indiek/mockdb/search.py:5-7 | for inputs without `\|`, two inputs give the same pattern if and only if they have the same terms |
| `Search.PatternRunLength` | indiek/mockdb/search.py:6 | the pattern does not depend on the length of a white-space run |
| `Search.PatternTrim` | indiek/mockdb/search.py:6 | the pattern does not depend on leading or trailing white space |
| `Search.PatternNormalize` | indiek/mockdb/search.py:6 | the pattern of the space-joined terms equals the pattern of the input |
| `Search.UserTypedThis` | tests/test_search.py:7-14 | `user typed This` gives the pattern `(user\|typed\|This)`, flagged case-insensitive |
| `Search.UnescapedTerms` | indiek/mockdb/search.py:5-7 | terms are inserted verbatim: the term `a\|b` of `a\|b c` reaches the pattern unescaped, giving the same `(a\|b\|c)` as `a b c` |

## Left out

- `re.compile` and regular-expression matching (indiek/mockdb/search.py:8). The compiled pattern is modelled as its source text plus an ignore-case flag. The meaning of metacharacters inside unescaped terms is not modelled, and neither is the error `re.compile` raises on a malformed pattern (for example an input term `a(`). Both belong to Python's `re` library.
- Python `str` values that hold lone surrogate code points. A Dafny `char` is a Unicode scalar value, so these strings cannot be written. They are not white space, so the tokenizer would treat them like any other term character.
- indiek/mockdb/items.py. It is a one-field data holder (`name`, default `''`) plus a `from_core` adapter over the external indiek-core library. It has no logic to verify.
- indiek/mockdb/persistence.py. It is file I/O that dumps and loads a JSON mapping.
- The record store that tests/test_items.py exercises is not part of this model. This covers identifier allocation; `save`, `load`, `delete`, `reload` and `load_note`; type-conflict errors; cascading deletion; `list_all` and `str_filter`. None of this is defined in the source files: indiek/mockdb/items.py has only the stub above.
- The filter that would apply the query to stored records is not part of this model. It is not in the source either. The source's search module only builds the query, and the model follows that code.
- setup.py. It is packaging metadata.
