# Treebank to inflection triples

This project models the conversion step of a morphological-inflection
toolkit. It takes a Universal Dependencies treebank that has already been
parsed from CoNLL-U. It produces one `(lemma, form, features)` or
`(form, lemma, features)` triple per token and writes each triple as one
tab-separated line.

The model has two modules:

- `Text` (text.dfy) gives the semantics of three Python string operations:
  `sep.join(parts)`, `s.split(sep)` and `s.split(c, 1)`. It proves that
  splitting undoes joining when no part holds the separator.
- `ConvertUd` (convert_ud.dfy) models the rest:
  - a `Token` holds `form`, the lemma (`lemmaForm`, because `lemma` is a
    Dafny keyword), `upos` and `feats`.
  - `feats` is `None` when the FEATS column is `_`. Otherwise it is the
    parser's dictionary as a sequence of `(name, value)` pairs in insertion
    order.
  - `SetFeat` is Python's `d[key] = value` on such a dictionary.
  - `FeatureString` builds the `key=value;...` signature.
  - `TokenTriple` orders the fields.
  - `ConvertToTriples` is the nested loop over sentences and tokens. It is
    proved against the specification functions `Tokens` and `Triples`.
  - `Deduplicate` is `list(set(...))`.
  - `Line` renders one output line.

The model follows the code of `convert_to_triples`. It has no lowercasing
and no lemma symbol-stripping stage, because the code has none. When a
token's dictionary already holds a `UPOS` entry, the code overwrites that
entry where it stands rather than adding a final `;UPOS=` pair, and the
model does the same.

## Model

| member | source | states |
|---|---|---|
| ConvertUd.KeyIndex | convert_ud.py:22 | the lookup half of `feats["UPOS"] =`: the position of the first entry named by the key, with no entry before it so named, or the dictionary's length when there is none |
| ConvertUd.SetFeat | convert_ud.py:22 | assigning `UPOS` overwrites the existing entry in its own position, or appends a new last entry when there is none; looking the key up afterwards finds it at that same position, holding the assigned value |
| ConvertUd.SetFeatSingleEntry | convert_ud.py:22 | after the assignment the names are still distinct and exactly one entry is named `UPOS`, holding the tag |
| ConvertUd.SetFeatIdempotent | convert_ud.py:22 | assigning the same key and value a second time changes nothing |
| ConvertUd.AfterConversion | convert_ud.py:21-22 | the token the write at :22 leaves behind: form, lemma and tag unchanged; a token with an absent or empty dictionary untouched; otherwise its dictionary is the old one with the first `UPOS` entry's value replaced in place, or with `UPOS` appended as the new last entry when the key was missing, every other entry keeping its place and value (ReconversionStable: converting it again gives the same triple) |
| ConvertUd.ReconversionStable | convert_ud.py:19-22 | the in-place write of `UPOS` into the caller's dictionary does not change the triple a second conversion of that token would produce |
| ConvertUd.FeatureString | convert_ud.py:21-25 | the feature string is never empty and always contains the pair `UPOS=<upos>` |
| ConvertUd.FeatureStringShape | convert_ud.py:21-25 | there are three cases: an absent or empty dictionary gives exactly `UPOS=<upos>`; a non-empty dictionary without `UPOS` gives the original pairs in order, joined by `;`, then `;UPOS=<upos>`; a dictionary with `UPOS` gives the original pairs with that entry's value replaced in place |
| ConvertUd.FeatureStringDecodes | convert_ud.py:21-23 | when no name holds `;` or `=` and no value or tag holds `;`, splitting the feature string at `;` and each pair at `=` gives back the dictionary with `UPOS` assigned; with distinct names it has exactly one `UPOS` pair, holding the tag |
| ConvertUd.ParseJoinedFeats | convert_ud.py:23 | `;`-joined `key=value` pairs read back as the entries they were written from |
| ConvertUd.RenderFeatsInvertible | convert_ud.py:23 | each written `key=value` pair is free of `;` and cuts back into its name and value at the first `=` |
| ConvertUd.RenderFeat | convert_ud.py:23 | one entry written as `key=value`; when the name holds no `=`, cutting the pair at its first `=` gives the entry back (with RenderFeatsInvertible) |
| ConvertUd.RenderFeats | convert_ud.py:23 | the list comprehension over the dictionary's items gives one pair per entry; RenderFeatsInvertible shows each pair cuts back into its entry, and RenderFeatsSnoc that one more entry adds its pair at the end |
| ConvertUd.RenderFeatsSnoc | convert_ud.py:23 | one more dictionary entry adds its pair at the end of the written pairs |
| ConvertUd.SetFeatKeepsClean | convert_ud.py:22 | assigning a name and value without separators keeps every entry free of separators |
| ConvertUd.SetFeatKeys | convert_ud.py:22 | the assignment renames no existing entry, and the dictionary grows by one entry exactly when the key was absent |
| ConvertUd.TokenTriple | convert_ud.py:17-29 | with `original_format` the triple is (lemma, form, features), otherwise (form, lemma, features); form and lemma are copied unchanged; the features field is non-empty and contains `UPOS=<upos>` |
| ConvertUd.ConvertToTriples | convert_ud.py:11-34 | `keep_duplicates` defaults to false and `original_format` to true, as in the source; with `keep_duplicates` the result is the per-token triples in sentence-then-token order, one per token, so its length is the token count; without it the result holds the same set of triples, each once, and is no longer than the token count |
| ConvertUd.Deduplicate | convert_ud.py:34 | `list(set(xs))` holds exactly the elements of `xs`, none twice, and is no longer than `xs`; its order is left open |
| ConvertUd.Tokens | convert_ud.py:15-16 | the sentence-major token sequence has exactly one entry per token of the corpus, where the count is taken from the first sentence on, independently of the traversal's own recursion |
| ConvertUd.TokenCountSnoc | convert_ud.py:15-16 | counting one more sentence at the end adds that sentence's token count |
| ConvertUd.TokensPrefix | convert_ud.py:15-16 | the tokens of the first `n` sentences open the traversal, in the same order |
| ConvertUd.TokensSnoc | convert_ud.py:15-16 | one more sentence appends its tokens to the traversal |
| ConvertUd.SentenceBlock | convert_ud.py:15-16 | sentence `s` occupies one contiguous block of the traversal, starting after the tokens of all earlier sentences |
| ConvertUd.SentenceTriples | convert_ud.py:14-16 | in the output list, sentence `s`'s triples form one block in token order, right after the triples of all earlier sentences |
| ConvertUd.TriplesSlice | convert_ud.py:30 | the triples of a slice of tokens are that slice of the triples |
| ConvertUd.TriplesSnoc | convert_ud.py:30 | appending a token appends exactly its triple |
| ConvertUd.Line | convert_ud.py:41 | an output line is non-empty and ends with a newline |
| ConvertUd.LineRoundTrip | convert_ud.py:41 | when no field holds a tab, splitting a line's text before the newline at its tabs gives back exactly the three fields |
| ConvertUd.UposPair | convert_ud.py:25 | the synthetic entry is written as `UPOS=<upos>` |
| Text.Join | convert_ud.py:23 | `sep.join(parts)`, used with `;` at :23 and with a tab at :41: no parts give the empty string; otherwise the text is as long as all parts together plus one separator per gap; SplitJoin, JoinSnoc and JoinContainsPart carry the rest of its meaning |
| Text.Split | convert_ud.py:23 | decoder for the join at convert_ud.py:23 (the source has no split): `s.split(sep)` always gives at least one piece, and no piece holds the separator |
| Text.Cut | convert_ud.py:23 | decoder for each pair of the join at convert_ud.py:23 (the source has no split): `s.split(c, 1)` as a pair: the first part holds no `c`; if `s` holds a `c`, the two parts joined by `c` are `s`; otherwise the pair is `(s, "")` |
| Text.CutAtSeparator | convert_ud.py:23 | decoder fact for the join at convert_ud.py:23 (the source has no split): cutting `name=value` at the first `=` gives back the name and the value when the name holds no `=` |
| Text.SplitJoin | convert_ud.py:23 | splitting a `sep`-join gives back the parts, when there is at least one part and no part holds `sep` |
| Text.JoinSplit | convert_ud.py:23 | decoder fact for the join at convert_ud.py:23 (the source has no split): joining the pieces of any split gives the text back, so splitting loses nothing |
| Text.SplitSeparatorFree | convert_ud.py:23 | helper for decoding the join at convert_ud.py:23 (the source has no split): a separator-free prefix is glued onto the first piece of what follows it |
| Text.JoinSnoc | convert_ud.py:23 | joining one more part adds one separator and that part at the end |
| Text.JoinContainsPart | convert_ud.py:23 | every part occurs in the joined string |
| Text.ContainsExtend | convert_ud.py:23 | helper fact about the join at convert_ud.py:23 (the source has no substring search): a substring stays a substring when text is added before or after |

## Left out

- `parse_from_file` (convert_ud.py:5-8) reads a file and calls the external `conllu` parser. Its result is a parameter of the model, a `seq<seq<Token>>`. CoNLL-U parsing is not part of this model.
- The model assumes the parser's token fields are present. `form`, `lemma` and `upos` are plain strings, and `feats` is `None` or a dictionary. A token without one of these fields is outside the model.
- The file-writing loop of `write_data` (convert_ud.py:36-41) is file I/O, so it is left out. Only the line it writes is modelled, as `Line`.
- The dataset mapping and the script call (convert_ud.py:44-50) are configuration constants and a side-effecting invocation, so they are left out.
- ConvertUd.Deduplicate: the iteration order of Python's `set` depends on the implementation. The model draws the elements in an arbitrary order, and its contract promises no order.
- The aliasing of the caller's `feats` dictionary is not modelled: the model builds the updated feature list as a new value. What the write leaves behind is given as the function `AfterConversion`, and `ReconversionStable` shows that it does not change a second conversion.
- Lowercasing and lemma symbol-stripping are left out because the modelled code does not do them.
