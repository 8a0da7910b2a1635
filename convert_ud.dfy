/** The conversion of a parsed Universal Dependencies treebank into
    (form, lemma, features) training triples, as `convert_to_triples` in
    convert_ud.py performs it, and the rendering of one triple as an output line. */
module ConvertUd {
  import opened Text

  datatype Option<T> = None | Some(value: T)

  /** One morphological feature, name and value, as one entry of the parser's
      insertion-ordered `feats` dictionary. */
  type Feat = (string, string)

  /** A token as the CoNLL-U parser hands it over. `feats` is `None` for a
      token whose FEATS column is `_`, and otherwise the dictionary's entries
      in insertion order. */
  datatype Token = Token(form: string, lemmaForm: string, upos: string, feats: Option<seq<Feat>>)

  type Sentence = seq<Token>

  /** An output record: (lemma, form, features) or (form, lemma, features). */
  type Triple = (string, string, string)

  // ---------------------------------------------------------------------------
  // The feature dictionary

  /** No two entries share a name, as in any dictionary. */
  ghost predicate DistinctKeys(fs: seq<Feat>)
  {
    forall i, j :: 0 <= i < j < |fs| ==> fs[i].0 != fs[j].0
  }

  /** Position of the entry named `key`, or `|fs|` when there is none. */
  function KeyIndex(fs: seq<Feat>, key: string): (i: nat)
    ensures i <= |fs|
    ensures i < |fs| ==> fs[i].0 == key
    ensures forall j :: 0 <= j < i ==> fs[j].0 != key
    decreases |fs|
  {
    if fs == [] then 0
    else if fs[0].0 == key then 0
    else 1 + KeyIndex(fs[1..], key)
  }

  /** Python's `d[key] = value` on an insertion-ordered dictionary: an entry
      already named `key` keeps its place and takes the new value; otherwise
      the entry is added at the end. */
  function SetFeat(fs: seq<Feat>, key: string, value: string): (r: seq<Feat>)
    ensures KeyIndex(fs, key) < |fs| ==> r == fs[KeyIndex(fs, key) := (key, value)]
    ensures KeyIndex(fs, key) == |fs| ==> r == fs + [(key, value)]
    ensures KeyIndex(r, key) == KeyIndex(fs, key) < |r| && r[KeyIndex(r, key)] == (key, value)
    decreases |fs|
  {
    if fs == [] then [(key, value)]
    else if fs[0].0 == key then [(key, value)] + fs[1..]
    else
      var rest := SetFeat(fs[1..], key, value);
      assert ([fs[0]] + rest)[1..] == rest;
      [fs[0]] + rest
  }

  /** `fs` has exactly one entry named `key`, and that entry holds `value`. */
  ghost predicate KeyOnceWith(fs: seq<Feat>, key: string, value: string)
  {
    exists k :: 0 <= k < |fs| && fs[k] == (key, value) &&
      forall i :: 0 <= i < |fs| && fs[i].0 == key ==> i == k
  }

  /** After the assignment the dictionary is still a dictionary and holds
      exactly one entry for the key, with the assigned value. */
  lemma {:induction false} SetFeatSingleEntry(fs: seq<Feat>, key: string, value: string)
    requires DistinctKeys(fs)
    ensures DistinctKeys(SetFeat(fs, key, value))
    ensures KeyOnceWith(SetFeat(fs, key, value), key, value)
  {
    var r := SetFeat(fs, key, value);
    var k := KeyIndex(fs, key);
    SetFeatKeys(fs, key, value);
    assert r[k] == (key, value);
    forall i | 0 <= i < |r| && r[i].0 == key
      ensures i == k
    {
    }
  }

  /** The assignment renames no entry, and the dictionary grows by one entry
      exactly when the key was new. */
  lemma {:induction false} SetFeatKeys(fs: seq<Feat>, key: string, value: string)
    ensures forall i :: 0 <= i < |fs| ==> SetFeat(fs, key, value)[i].0 == fs[i].0
    ensures KeyIndex(fs, key) < |fs| <==> |SetFeat(fs, key, value)| == |fs|
    ensures KeyIndex(fs, key) == |fs| <==> |SetFeat(fs, key, value)| == |fs| + 1
  {
  }

  /** Assigning the same key and value twice is the same as assigning once. */
  lemma {:induction false} SetFeatIdempotent(fs: seq<Feat>, key: string, value: string)
    ensures SetFeat(SetFeat(fs, key, value), key, value) == SetFeat(fs, key, value)
  {
    var r := SetFeat(fs, key, value);
    assert r[KeyIndex(r, key) := (key, value)] == r;
  }

  // ---------------------------------------------------------------------------
  // The feature string

  /** One `key=value` pair; a name without `=` cuts back out of it. */
  function RenderFeat(f: Feat): (r: string)
    ensures '=' !in f.0 ==> Cut(r, '=') == f
  {
    var r := f.0 + "=" + f.1;
    if '=' !in f.0 then CutAtSeparator(f.0, '=', f.1); r else r
  }

  /** The pairs of a dictionary's entries, one per entry, in entry order. */
  function RenderFeats(fs: seq<Feat>): (r: seq<string>)
    ensures |r| == |fs|
  {
    seq(|fs|, i requires 0 <= i < |fs| => RenderFeat(fs[i]))
  }

  /** The entries of `feats`, an absent dictionary read as an empty one. */
  function FeatsOrEmpty(feats: Option<seq<Feat>>): seq<Feat>
  {
    if feats.Some? then feats.value else []
  }

  /** The feature string of convert_ud.py:21-25: with a non-empty dictionary,
      `UPOS` is set to the tag and every entry is written as `key=value`,
      joined by `;`; otherwise the string is the tag alone as `UPOS=<tag>`.
      Either way it is non-empty and holds the pair `UPOS=<tag>`. */
  function FeatureString(feats: Option<seq<Feat>>, upos: string): (r: string)
    ensures |r| > 0
    ensures Contains(r, "UPOS=" + upos)
  {
    if feats.Some? && feats.value != [] then
      var withUpos := SetFeat(feats.value, "UPOS", upos);
      var parts := RenderFeats(withUpos);
      var k := KeyIndex(withUpos, "UPOS");
      UposPair(upos);
      assert parts[k] == "UPOS=" + upos;
      JoinContainsPart(parts, ';', k);
      assert |parts[k]| > 0;
      Join(parts, ';')
    else
      var r := "UPOS=" + upos;
      assert OccursAt(r, r, 0);
      r
  }

  /** The three shapes a feature string takes: `UPOS=<tag>` alone for an absent
      or empty dictionary; the original pairs in their order followed by
      `;UPOS=<tag>` when the dictionary has no `UPOS` entry; and the original
      pairs with the `UPOS` entry's value replaced in place when it has one. */
  lemma {:induction false} FeatureStringShape(feats: Option<seq<Feat>>, upos: string)
    ensures FeatsOrEmpty(feats) == [] ==> FeatureString(feats, upos) == "UPOS=" + upos
    ensures FeatsOrEmpty(feats) != [] && KeyIndex(FeatsOrEmpty(feats), "UPOS") == |FeatsOrEmpty(feats)| ==>
      FeatureString(feats, upos) == Join(RenderFeats(FeatsOrEmpty(feats)), ';') + ";UPOS=" + upos
    ensures KeyIndex(FeatsOrEmpty(feats), "UPOS") < |FeatsOrEmpty(feats)| ==>
      var fs := FeatsOrEmpty(feats);
      FeatureString(feats, upos) == Join(RenderFeats(fs[KeyIndex(fs, "UPOS") := ("UPOS", upos)]), ';')
  {
    var fs := FeatsOrEmpty(feats);
    if fs == [] {
    } else if KeyIndex(fs, "UPOS") == |fs| {
      var entry := ("UPOS", upos);
      assert FeatureString(feats, upos) == Join(RenderFeats(fs + [entry]), ';');
      RenderFeatsSnoc(fs, entry);
      JoinSnoc(RenderFeats(fs), ';', RenderFeat(entry));
      UposPair(upos);
    } else {
    }
  }

  /** One more entry adds its pair at the end. */
  lemma {:induction false} RenderFeatsSnoc(fs: seq<Feat>, f: Feat)
    ensures RenderFeats(fs + [f]) == RenderFeats(fs) + [RenderFeat(f)]
  {
  }

  /** The feature names and values can be written without ambiguity: no name
      holds `;` or `=`, no value holds `;`. */
  ghost predicate CleanFeats(fs: seq<Feat>)
  {
    forall i :: 0 <= i < |fs| ==> ';' !in fs[i].0 && '=' !in fs[i].0 && ';' !in fs[i].1
  }

  /** Reads a feature string back: split at `;`, each pair cut at its first `=`. */
  function ParseFeatures(s: string): seq<Feat>
  {
    var parts := Split(s, ';');
    seq(|parts|, i requires 0 <= i < |parts| => Cut(parts[i], '='))
  }

  /** Each written pair is free of `;` and cuts back into its entry. */
  lemma {:induction false} RenderFeatsInvertible(w: seq<Feat>)
    requires CleanFeats(w)
    ensures forall i :: 0 <= i < |w| ==>
      ';' !in RenderFeats(w)[i] && Cut(RenderFeats(w)[i], '=') == w[i]
  {
    forall i | 0 <= i < |w|
      ensures ';' !in RenderFeats(w)[i] && Cut(RenderFeats(w)[i], '=') == w[i]
    {
      assert RenderFeats(w)[i] == w[i].0 + ['='] + w[i].1;
      CutAtSeparator(w[i].0, '=', w[i].1);
    }
  }

  /** A non-empty clean list of entries, written and joined, reads back as itself. */
  lemma {:induction false} ParseJoinedFeats(w: seq<Feat>)
    requires |w| > 0 && CleanFeats(w)
    ensures ParseFeatures(Join(RenderFeats(w), ';')) == w
  {
    RenderFeatsInvertible(w);
    SplitJoin(RenderFeats(w), ';');
  }

  /** Writing and reading back a clean dictionary of features gives the
      dictionary with `UPOS` assigned; when the dictionary's names were distinct,
      the string carries exactly one `UPOS` pair, the token's tag. */
  lemma {:induction false} FeatureStringDecodes(feats: Option<seq<Feat>>, upos: string)
    requires CleanFeats(FeatsOrEmpty(feats)) && ';' !in upos
    ensures ParseFeatures(FeatureString(feats, upos)) == SetFeat(FeatsOrEmpty(feats), "UPOS", upos)
    ensures DistinctKeys(FeatsOrEmpty(feats)) ==>
      var d := ParseFeatures(FeatureString(feats, upos));
      DistinctKeys(d) && KeyOnceWith(d, "UPOS", upos)
  {
    var fs := FeatsOrEmpty(feats);
    var w := SetFeat(fs, "UPOS", upos);
    SetFeatKeepsClean(fs, "UPOS", upos);
    if fs == [] {
      var parts := RenderFeats(w);
      assert |parts| == 1 && parts[0] == RenderFeat(("UPOS", upos));
      UposPair(upos);
      assert Join(parts, ';') == parts[0];
    }
    assert FeatureString(feats, upos) == Join(RenderFeats(w), ';');
    ParseJoinedFeats(w);
    if DistinctKeys(fs) {
      SetFeatSingleEntry(fs, "UPOS", upos);
    }
  }

  /** The synthetic entry is written as `UPOS=<tag>`. */
  lemma {:induction false} UposPair(upos: string)
    ensures RenderFeat(("UPOS", upos)) == "UPOS=" + upos
  {
    assert "UPOS" + "=" == "UPOS=";
  }

  /** Assigning a clean name and value keeps a dictionary clean. */
  lemma {:induction false} SetFeatKeepsClean(fs: seq<Feat>, key: string, value: string)
    requires CleanFeats(fs) && ';' !in key && '=' !in key && ';' !in value
    ensures CleanFeats(SetFeat(fs, key, value))
  {
    var w := SetFeat(fs, key, value);
    if KeyIndex(fs, key) == |fs| {
      assert forall i :: 0 <= i < |fs| ==> w[i] == fs[i];
    }
  }

  // ---------------------------------------------------------------------------
  // Per-token triples

  /** The triple of one token (convert_ud.py:17-29): the lemma and the form,
      copied unchanged, in the order the flag asks for, then the feature string. */
  function TokenTriple(t: Token, originalFormat: bool): (r: Triple)
    ensures originalFormat ==> r.0 == t.lemmaForm && r.1 == t.form
    ensures !originalFormat ==> r.0 == t.form && r.1 == t.lemmaForm
    ensures |r.2| > 0 && Contains(r.2, "UPOS=" + t.upos)
  {
    var featsStr := FeatureString(t.feats, t.upos);
    if originalFormat then (t.lemmaForm, t.form, featsStr) else (t.form, t.lemmaForm, featsStr)
  }

  /** The token as the conversion leaves it behind: convert_ud.py:22 writes
      `UPOS` into a non-empty feature dictionary of the caller's token. */
  function AfterConversion(t: Token): (r: Token)
    ensures r.form == t.form && r.lemmaForm == t.lemmaForm && r.upos == t.upos
    ensures FeatsOrEmpty(t.feats) == [] ==> r == t
    ensures FeatsOrEmpty(t.feats) != [] ==>
      r.feats.Some? && KeyIndex(r.feats.value, "UPOS") < |r.feats.value| &&
      r.feats.value[KeyIndex(r.feats.value, "UPOS")] == ("UPOS", t.upos)
    ensures FeatsOrEmpty(t.feats) != [] ==>
      var fs := t.feats.value;
      var k := KeyIndex(fs, "UPOS");
      r.feats == Some(if k < |fs| then fs[k := ("UPOS", t.upos)] else fs + [("UPOS", t.upos)])
  {
    if t.feats.Some? && t.feats.value != [] then
      t.(feats := Some(SetFeat(t.feats.value, "UPOS", t.upos)))
    else t
  }

  /** The write into the caller's dictionary does not change what a second
      conversion of the same token produces. */
  lemma {:induction false} ReconversionStable(t: Token, originalFormat: bool)
    ensures TokenTriple(AfterConversion(t), originalFormat) == TokenTriple(t, originalFormat)
  {
    if t.feats.Some? && t.feats.value != [] {
      SetFeatIdempotent(t.feats.value, "UPOS", t.upos);
    }
  }

  // ---------------------------------------------------------------------------
  // The corpus

  /** The total number of tokens over all sentences, counted from the first. */
  function TokenCount(corpus: seq<Sentence>): nat
    decreases |corpus|
  {
    if corpus == [] then 0
    else |corpus[0]| + TokenCount(corpus[1..])
  }

  /** Counting one more sentence at the end adds its length. */
  lemma {:induction false} TokenCountSnoc(corpus: seq<Sentence>, sent: Sentence)
    ensures TokenCount(corpus + [sent]) == TokenCount(corpus) + |sent|
    decreases |corpus|
  {
    if corpus == [] {
      assert ([] + [sent])[1..] == [];
    } else {
      assert (corpus + [sent])[1..] == corpus[1..] + [sent];
      TokenCountSnoc(corpus[1..], sent);
    }
  }

  /** All tokens, sentence by sentence, each sentence in its own order. */
  function Tokens(corpus: seq<Sentence>): (r: seq<Token>)
    ensures |r| == TokenCount(corpus)
    decreases |corpus|
  {
    if corpus == [] then []
    else
      var init := corpus[..|corpus| - 1];
      TokenCountSnoc(init, corpus[|corpus| - 1]);
      assert init + [corpus[|corpus| - 1]] == corpus;
      Tokens(init) + corpus[|corpus| - 1]
  }

  /** The tokens of the first `n` sentences come first, in the same order. */
  lemma {:induction false} TokensPrefix(corpus: seq<Sentence>, n: nat)
    requires n <= |corpus|
    ensures TokenCount(corpus[..n]) <= TokenCount(corpus)
    ensures Tokens(corpus)[..TokenCount(corpus[..n])] == Tokens(corpus[..n])
    decreases |corpus|
  {
    if n < |corpus| {
      var init := corpus[..|corpus| - 1];
      TokensPrefix(init, n);
      assert init[..n] == corpus[..n];
      assert Tokens(corpus) == Tokens(init) + corpus[|corpus| - 1];
    } else {
      assert corpus[..n] == corpus;
    }
  }

  /** One more sentence adds its tokens at the end. */
  lemma {:induction false} TokensSnoc(corpus: seq<Sentence>, s: nat)
    requires s < |corpus|
    ensures Tokens(corpus[..s + 1]) == Tokens(corpus[..s]) + corpus[s]
  {
    assert corpus[..s + 1][..s] == corpus[..s];
  }

  /** Sentence `s` occupies one contiguous block of the flattened corpus,
      right after the tokens of all earlier sentences. */
  lemma {:induction false} SentenceBlock(corpus: seq<Sentence>, s: nat)
    requires s < |corpus|
    ensures TokenCount(corpus[..s]) + |corpus[s]| <= TokenCount(corpus)
    ensures Tokens(corpus)[TokenCount(corpus[..s])..TokenCount(corpus[..s]) + |corpus[s]|] == corpus[s]
  {
    TokensPrefix(corpus, s + 1);
    TokensSnoc(corpus, s);
    var start := TokenCount(corpus[..s]);
    var block := Tokens(corpus)[..start + |corpus[s]|];
    assert block == Tokens(corpus[..s]) + corpus[s];
    assert Tokens(corpus)[start..start + |corpus[s]|] == block[start..];
  }

  /** The triples of a token sequence, one per token, in the same order. */
  function Triples(tokens: seq<Token>, originalFormat: bool): seq<Triple>
  {
    seq(|tokens|, i requires 0 <= i < |tokens| => TokenTriple(tokens[i], originalFormat))
  }

  /** In the corpus's triples, the triples of sentence `s` form one block,
      in token order, right after those of all earlier sentences. */
  lemma {:induction false} SentenceTriples(corpus: seq<Sentence>, s: nat, originalFormat: bool)
    requires s < |corpus|
    ensures TokenCount(corpus[..s]) + |corpus[s]| <= TokenCount(corpus)
    ensures Triples(Tokens(corpus), originalFormat)[TokenCount(corpus[..s])..TokenCount(corpus[..s]) + |corpus[s]|]
      == Triples(corpus[s], originalFormat)
  {
    var start, end := TokenCount(corpus[..s]), TokenCount(corpus[..s]) + |corpus[s]|;
    var tokens := Tokens(corpus);
    SentenceBlock(corpus, s);
    assert tokens[start..end] == corpus[s];
    TriplesSlice(tokens, start, end, originalFormat);
    assert Triples(tokens, originalFormat)[start..end] == Triples(tokens[start..end], originalFormat);
  }

  /** Taking a slice commutes with computing the triples. */
  lemma {:induction false} TriplesSlice(tokens: seq<Token>, lo: nat, hi: nat, originalFormat: bool)
    requires lo <= hi <= |tokens|
    ensures Triples(tokens, originalFormat)[lo..hi] == Triples(tokens[lo..hi], originalFormat)
  {
  }

  /** One more token adds its triple at the end. */
  lemma {:induction false} TriplesSnoc(tokens: seq<Token>, t: Token, originalFormat: bool)
    ensures Triples(tokens + [t], originalFormat) == Triples(tokens, originalFormat) + [TokenTriple(t, originalFormat)]
  {
  }

  function Elems<T>(s: seq<T>): set<T>
  {
    set x | x in s
  }

  ghost predicate NoDuplicates<T>(s: seq<T>)
  {
    forall i, j :: 0 <= i < j < |s| ==> s[i] != s[j]
  }

  /** Python's `list(set(xs))`: the distinct elements of `xs`, each once, in
      an order left unspecified (here whatever order the set is drawn from). */
  method Deduplicate<T(==)>(xs: seq<T>) returns (r: seq<T>)
    ensures Elems(r) == Elems(xs)
    ensures NoDuplicates(r)
    ensures |r| <= |xs|
  {
    var seen: set<T> := {};
    for i := 0 to |xs|
      invariant seen == Elems(xs[..i])
      invariant |seen| <= i
    {
      assert xs[..i + 1] == xs[..i] + [xs[i]];
      seen := seen + {xs[i]};
    }
    assert xs[..|xs|] == xs;
    r := [];
    var rest := seen;
    while rest != {}
      invariant Elems(r) + rest == seen
      invariant Elems(r) !! rest
      invariant NoDuplicates(r)
      invariant |r| + |rest| == |seen|
      decreases |rest|
    {
      var x :| x in rest;
      r := r + [x];
      rest := rest - {x};
    }
  }

  /** `convert_to_triples` (convert_ud.py:11-34): walks the sentences and
      their tokens in order, appending each token's triple; returns that list
      when duplicates are kept, and otherwise its distinct triples, each once,
      in an unspecified order. */
  method ConvertToTriples(corpus: seq<Sentence>, keepDuplicates: bool := false, originalFormat: bool := true)
    returns (triples: seq<Triple>)
    ensures keepDuplicates ==> triples == Triples(Tokens(corpus), originalFormat)
    ensures keepDuplicates ==> |triples| == TokenCount(corpus)
    ensures !keepDuplicates ==> Elems(triples) == Elems(Triples(Tokens(corpus), originalFormat))
    ensures !keepDuplicates ==> NoDuplicates(triples) && |triples| <= TokenCount(corpus)
  {
    var all: seq<Triple> := [];
    for s := 0 to |corpus|
      invariant all == Triples(Tokens(corpus[..s]), originalFormat)
    {
      var sent := corpus[s];
      ghost var before := Tokens(corpus[..s]);
      for k := 0 to |sent|
        invariant all == Triples(before + sent[..k], originalFormat)
      {
        var token := sent[k];
        var form := token.form;
        var lemmaForm := token.lemmaForm;
        var feats := token.feats;
        var partOfSpeech := token.upos;
        var featsStr: string;
        if feats.Some? && feats.value != [] {
          featsStr := Join(RenderFeats(SetFeat(feats.value, "UPOS", partOfSpeech)), ';');
        } else {
          featsStr := "UPOS=" + partOfSpeech;
        }
        assert featsStr == FeatureString(token.feats, token.upos);
        var triple: Triple;
        if originalFormat {
          triple := (lemmaForm, form, featsStr);
        } else {
          triple := (form, lemmaForm, featsStr);
        }
        assert triple == TokenTriple(token, originalFormat);
        ghost var done := before + sent[..k];
        assert done + [token] == before + sent[..k + 1] by {
          assert sent[..k + 1] == sent[..k] + [token];
        }
        TriplesSnoc(done, token, originalFormat);
        all := all + [triple];
      }
      assert sent[..|sent|] == sent;
      TokensSnoc(corpus, s);
    }
    assert corpus[..|corpus|] == corpus;
    if keepDuplicates {
      triples := all;
    } else {
      triples := Deduplicate(all);
    }
  }

  // ---------------------------------------------------------------------------
  // Output lines

  /** One output line (convert_ud.py:41): the three fields joined by tabs,
      ended by a newline. */
  function Line(t: Triple): (r: string)
    ensures |r| > 0 && r[|r| - 1] == '\n'
  {
    Join([t.0, t.1, t.2], '\t') + "\n"
  }

  /** Reads one output line back into its three fields. */
  function ParseLine(line: string): Option<Triple>
  {
    if |line| > 0 && line[|line| - 1] == '\n' then
      var fields := Split(line[..|line| - 1], '\t');
      if |fields| == 3 then Some((fields[0], fields[1], fields[2])) else None
    else None
  }

  /** A line gives back its triple whenever no field holds a tab. */
  lemma {:induction false} LineRoundTrip(t: Triple)
    requires '\t' !in t.0 && '\t' !in t.1 && '\t' !in t.2
    ensures ParseLine(Line(t)) == Some(t)
  {
    var l := Line(t);
    assert l[..|l| - 1] == Join([t.0, t.1, t.2], '\t');
    SplitJoin([t.0, t.1, t.2], '\t');
  }
}
