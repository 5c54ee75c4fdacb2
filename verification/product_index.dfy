/**
 * The key arithmetic of `_lookup_product_url_for_label`: the slug of a label,
 * the six object keys tried under the index prefix, and the first-hit search
 * over them. Reading an object from storage is the `tryKey` parameter.
 */
module ProductIndex {
  import opened Wrappers
  import opened Text

  /** The prefix used when no prefix is configured. */
  const DefaultPrefix: string := "product-index"

  /** The characters the slug keeps: `[a-z0-9]`. */
  predicate IsSlugChar(c: char) {
    'a' <= c <= 'z' || '0' <= c <= '9'
  }

  /** Only `[a-z0-9-]`, and no two dashes next to each other. */
  ghost predicate DashSeparated(s: string) {
    && (forall i :: 0 <= i < |s| ==> IsSlugChar(s[i]) || s[i] == '-')
    && (forall i, j :: 0 <= i && j == i + 1 && j < |s| ==> !(s[i] == '-' && s[j] == '-'))
  }

  /** Dash-separated and neither starting nor ending with a dash. */
  ghost predicate IsSlug(s: string) {
    DashSeparated(s) && (|s| > 0 ==> s[0] != '-' && s[|s| - 1] != '-')
  }

  lemma DashSeparatedCons(c: char, t: string)
    requires IsSlugChar(c) || c == '-'
    requires DashSeparated(t)
    requires c == '-' ==> |t| == 0 || t[0] != '-'
    ensures DashSeparated([c] + t)
  {
    var s := [c] + t;
    forall i, j | 0 <= i && j == i + 1 && j < |s| ensures !(s[i] == '-' && s[j] == '-') {
      if i > 0 {
        assert s[i] == t[i - 1] && s[j] == t[j - 1];
      }
    }
  }

  lemma DashSeparatedSlice(s: string, a: nat, b: nat)
    requires a <= b <= |s|
    requires DashSeparated(s)
    ensures DashSeparated(s[a..b])
  {
    var t := s[a..b];
    forall i, j | 0 <= i && j == i + 1 && j < |t| ensures !(t[i] == '-' && t[j] == '-') {
      assert t[i] == s[a + i] && t[j] == s[a + j];
    }
  }

  /** Drops the run of non-slug characters at the front of `s`. */
  function SkipRun(s: string): (r: string)
    ensures |r| <= |s| && r == s[|s| - |r|..]
    ensures |r| > 0 ==> IsSlugChar(r[0])
    ensures forall i :: 0 <= i < |s| - |r| ==> !IsSlugChar(s[i])
  {
    if |s| == 0 || IsSlugChar(s[0]) then s else SkipRun(s[1..])
  }

  /** `re.sub(r"[^a-z0-9]+", "-", s)`: every maximal run of other characters becomes one dash. */
  function Collapse(s: string): (r: string)
    ensures DashSeparated(r)
    ensures |s| > 0 && IsSlugChar(s[0]) ==> |r| > 0 && r[0] == s[0]
    decreases |s|
  {
    if |s| == 0 then ""
    else if IsSlugChar(s[0]) then
      var t := Collapse(s[1..]);
      DashSeparatedCons(s[0], t);
      [s[0]] + t
    else
      var t := Collapse(SkipRun(s[1..]));
      DashSeparatedCons('-', t);
      "-" + t
  }

  function TrimLeadingDashes(s: string): (r: string)
    ensures |r| <= |s| && r == s[|s| - |r|..]
    ensures |r| > 0 ==> r[0] != '-'
    ensures forall i :: 0 <= i < |s| - |r| ==> s[i] == '-'
  {
    if |s| > 0 && s[0] == '-' then TrimLeadingDashes(s[1..]) else s
  }

  function TrimTrailingDashes(s: string): (r: string)
    ensures |r| <= |s| && r == s[..|r|]
    ensures |r| > 0 ==> r[|r| - 1] != '-'
    ensures forall i :: |r| <= i < |s| ==> s[i] == '-'
  {
    if |s| > 0 && s[|s| - 1] == '-' then TrimTrailingDashes(s[..|s| - 1]) else s
  }

  /** The number of dashes `s` starts with. */
  function LeadingDashes(s: string): (n: nat)
    ensures n <= |s|
    ensures forall k :: 0 <= k < n ==> s[k] == '-'
    ensures n < |s| ==> s[n] != '-'
  {
    if |s| > 0 && s[0] == '-' then 1 + LeadingDashes(s[1..]) else 0
  }

  /** Trimming the leading dashes drops exactly the dashes `s` starts with. */
  lemma TrimLeadingDropsLeadingDashes(s: string)
    ensures TrimLeadingDashes(s) == s[LeadingDashes(s)..]
  {
    var t := TrimLeadingDashes(s);
    var m, n := |s| - |t|, LeadingDashes(s);
    assert m < |s| ==> s[m] == t[0];
  }

  /**
   * `s.strip('-')`: the part of `s` after its leading dashes, with nothing but
   * dashes cut off after it, and neither starting nor ending with a dash.
   */
  function StripDashes(s: string): (r: string)
    ensures var n := LeadingDashes(s); n + |r| <= |s| && r == s[n..n + |r|]
    ensures var n := LeadingDashes(s); forall k :: n + |r| <= k < |s| ==> s[k] == '-'
    ensures |r| > 0 ==> r[0] != '-' && r[|r| - 1] != '-'
  {
    var t := TrimLeadingDashes(s);
    var n := LeadingDashes(s);
    StripDashesSlice(s, n, t, TrimTrailingDashes(t));
    TrimTrailingDashes(t)
  }

  lemma StripDashesSlice(s: string, n: nat, t: string, r: string)
    requires n == LeadingDashes(s) && t == TrimLeadingDashes(s) && r == TrimTrailingDashes(t)
    ensures n + |r| <= |s| && r == s[n..n + |r|]
    ensures forall k :: n + |r| <= k < |s| ==> s[k] == '-'
    ensures |r| > 0 ==> r[0] != '-' && r[|r| - 1] != '-'
  {
    TrimLeadingDropsLeadingDashes(s);
    SliceOfSuffix(s, n, t, r);
    if |r| > 0 {
      assert r[0] == t[0];
    }
  }

  /** A prefix of a suffix of `s` is a slice of `s`, and what follows it in the suffix follows it in `s`. */
  lemma SliceOfSuffix(s: string, n: nat, t: string, r: string)
    requires n <= |s| && t == s[n..]
    requires |r| <= |t| && r == t[..|r|]
    requires forall i :: |r| <= i < |t| ==> t[i] == '-'
    ensures n + |r| <= |s| && r == s[n..n + |r|]
    ensures forall k :: n + |r| <= k < |s| ==> s[k] == '-'
  {
    forall k | n + |r| <= k < |s| ensures s[k] == '-' {
      assert s[k] == t[k - n];
    }
  }

  /** Stripping the dashes at both ends of a dash-separated string leaves a slug. */
  lemma StripDashesMakesSlug(c: string)
    requires DashSeparated(c)
    ensures IsSlug(StripDashes(c))
  {
    var t := TrimLeadingDashes(c);
    DashSeparatedSlice(c, |c| - |t|, |c|);
    var r := TrimTrailingDashes(t);
    DashSeparatedSlice(t, 0, |r|);
    assert r == StripDashes(c);
    if |r| > 0 {
      assert r[0] == t[0];
    }
  }

  /** The slug of an already lower-cased label. */
  function Slugify(lower: string): (r: string)
    ensures IsSlug(r)
  {
    var c := Collapse(lower);
    StripDashesMakesSlug(c);
    StripDashes(c)
  }

  /**
   * The maximal runs of `[a-z0-9]` characters of `s`, in order: the words a
   * slug keeps, defined character by character and independently of the
   * substitution that computes the slug.
   */
  function Words(s: string): (r: seq<string>)
    ensures |s| > 0 && IsSlugChar(s[0]) ==> |r| > 0 && |r[0]| > 0 && r[0][0] == s[0]
    decreases |s|
  {
    if |s| == 0 then []
    else if !IsSlugChar(s[0]) then Words(s[1..])
    else
      var w := Words(s[1..]);
      if |s| > 1 && IsSlugChar(s[1]) then [[s[0]] + w[0]] + w[1..]
      else [[s[0]]] + w
  }

  /** Every word is a non-empty run of characters of `[a-z0-9]`. */
  lemma {:induction false} WordsAreRuns(s: string)
    ensures forall k :: 0 <= k < |Words(s)| ==> |Words(s)[k]| > 0
    ensures forall k, i :: 0 <= k < |Words(s)| && 0 <= i < |Words(s)[k]| ==> IsSlugChar(Words(s)[k][i])
    decreases |s|
  {
    if |s| > 0 {
      WordsAreRuns(s[1..]);
      var w := Words(s[1..]);
      if IsSlugChar(s[0]) && |s| > 1 && IsSlugChar(s[1]) {
        var w0 := [s[0]] + w[0];
        assert Words(s) == [w0] + w[1..];
        assert forall i :: 0 < i < |w0| ==> w0[i] == w[0][i - 1];
      } else if IsSlugChar(s[0]) {
        assert Words(s) == [[s[0]]] + w;
      }
    }
  }

  /** `sep.join(ws)` */
  function Join(ws: seq<string>, sep: string): string {
    if |ws| == 0 then ""
    else if |ws| == 1 then ws[0]
    else ws[0] + sep + Join(ws[1..], sep)
  }

  /** A word in front of a non-empty list is followed by one separator. */
  lemma JoinCons(a: string, ws: seq<string>, sep: string)
    requires |ws| > 0
    ensures Join([a] + ws, sep) == a + (sep + Join(ws, sep))
  {
    var ws' := [a] + ws;
    assert ws'[0] == a && ws'[1..] == ws;
  }

  /** Putting a character in front of the first word puts it in front of the joined text. */
  lemma JoinConsHead(c: char, ws: seq<string>, sep: string)
    requires |ws| > 0
    ensures Join([[c] + ws[0]] + ws[1..], sep) == [c] + Join(ws, sep)
  {
    var ws' := [[c] + ws[0]] + ws[1..];
    assert ws'[0] == [c] + ws[0] && ws'[1..] == ws[1..];
  }

  /** A leading run of other characters contributes no word. */
  lemma {:induction false} WordsSkipRun(s: string)
    ensures Words(SkipRun(s)) == Words(s)
    decreases |s|
  {
    if |s| > 0 && !IsSlugChar(s[0]) {
      WordsSkipRun(s[1..]);
    }
  }

  /** Trailing dashes are only trimmed past a non-dash first character. */
  lemma {:induction false} TrimTrailingCons(c: char, x: string)
    requires c != '-' || |TrimTrailingDashes(x)| > 0
    ensures TrimTrailingDashes([c] + x) == [c] + TrimTrailingDashes(x)
    decreases |x|
  {
    var s := [c] + x;
    if |x| == 0 {
      assert s == [c];
    } else if x[|x| - 1] == '-' {
      var x' := x[..|x| - 1];
      assert s[|s| - 1] == '-';
      assert s[..|s| - 1] == [c] + x';
      assert TrimTrailingDashes(x) == TrimTrailingDashes(x');
      TrimTrailingCons(c, x');
    } else {
      assert s[|s| - 1] == x[|x| - 1];
    }
  }

  /** A character of `[a-z0-9]` followed by another: it joins the front of the first word. */
  lemma CollapseWordContinues(s: string)
    requires |s| > 1 && IsSlugChar(s[0]) && IsSlugChar(s[1])
    requires TrimTrailingDashes(Collapse(s[1..])) == Join(Words(s[1..]), "-")
    ensures TrimTrailingDashes(Collapse(s)) == Join(Words(s), "-")
  {
    var c, rest := s[0], s[1..];
    assert Collapse(s) == [c] + Collapse(rest);
    TrimTrailingCons(c, Collapse(rest));
    var w := Words(rest);
    assert Words(s) == [[c] + w[0]] + w[1..];
    JoinConsHead(c, w, "-");
  }

  /** A character of `[a-z0-9]` at the end of the text is a one-character last word. */
  lemma CollapseWordEnds(s: string)
    requires |s| == 1 && IsSlugChar(s[0])
    ensures TrimTrailingDashes(Collapse(s)) == Join(Words(s), "-")
  {
    assert s == [s[0]] && s[1..] == "";
    assert Collapse(s) == s;
    assert Words(s) == [s];
  }

  /**
   * A character of `[a-z0-9]` followed by a run of characters outside it: the word ends,
   * and the run becomes one dash when another word follows it.
   */
  lemma CollapseWordBreaks(s: string)
    requires |s| > 1 && IsSlugChar(s[0]) && !IsSlugChar(s[1])
    requires var r := SkipRun(s[2..]);
             |r| > 0 ==> TrimTrailingDashes(Collapse(r)) == Join(Words(r), "-")
    ensures TrimTrailingDashes(Collapse(s)) == Join(Words(s), "-")
  {
    var c, rest := s[0], s[1..];
    var r := SkipRun(s[2..]);
    var x := Collapse(r);
    assert Collapse(s) == [c] + ("-" + x) by {
      assert rest[1..] == s[2..];
      assert Collapse(rest) == "-" + x;
    }
    assert Words(s) == [[c]] + Words(r) by {
      assert rest[1..] == s[2..];
      WordsSkipRun(s[2..]);
      assert Words(rest) == Words(r);
    }
    if |r| == 0 {
      assert TrimTrailingDashes("-") == "";
      TrimTrailingCons(c, "-");
    } else {
      assert |x| > 0 && x[0] == r[0];
      GapBeforeWord(c, x, Words(r));
    }
  }

  /** A dash between a non-dash character and a text that starts with one survives the trim. */
  lemma TrimAroundDash(c: char, x: string)
    requires c != '-' && |x| > 0 && x[0] != '-'
    ensures TrimTrailingDashes([c] + ("-" + x)) == [c] + ("-" + TrimTrailingDashes(x))
  {
    var x0, x1 := x[0], x[1..];
    TrimTrailingCons(x0, x1);
    assert [x0] + x1 == x;
    TrimTrailingCons('-', x);
    TrimTrailingCons(c, "-" + x);
  }

  /** The joined words after a gap, behind a one-letter word. */
  lemma GapBeforeWord(c: char, x: string, w: seq<string>)
    requires c != '-' && |x| > 0 && x[0] != '-' && |w| > 0
    requires TrimTrailingDashes(x) == Join(w, "-")
    ensures TrimTrailingDashes([c] + ("-" + x)) == Join([[c]] + w, "-")
  {
    TrimAroundDash(c, x);
    JoinCons([c], w, "-");
  }

  /**
   * From the first character of `[a-z0-9]` on, the collapsed text with its trailing
   * dash dropped is the words joined by single dashes.
   */
  lemma {:induction false} TrimCollapseOfWord(s: string)
    requires |s| > 0 && IsSlugChar(s[0])
    ensures TrimTrailingDashes(Collapse(s)) == Join(Words(s), "-")
    decreases |s|
  {
    if |s| == 1 {
      CollapseWordEnds(s);
    } else if IsSlugChar(s[1]) {
      TrimCollapseOfWord(s[1..]);
      CollapseWordContinues(s);
    } else {
      var r := SkipRun(s[2..]);
      if |r| > 0 {
        TrimCollapseOfWord(r);
      }
      CollapseWordBreaks(s);
    }
  }

  /**
   * `re.sub(r"[^a-z0-9]+", "-", lower).strip('-')` is the maximal runs of
   * `[a-z0-9]` joined by single dashes: every run of other characters between
   * two words becomes exactly one dash, and those at either end vanish.
   */
  lemma SlugifyJoinsWords(lower: string)
    ensures Slugify(lower) == Join(Words(lower), "-")
  {
    var c := Collapse(lower);
    if |lower| > 0 && IsSlugChar(lower[0]) {
      assert TrimLeadingDashes(c) == c;
      TrimCollapseOfWord(lower);
    } else if |lower| > 0 {
      var r := SkipRun(lower[1..]);
      assert c == "-" + Collapse(r);
      WordsSkipRun(lower[1..]);
      assert Words(lower) == Words(r);
      assert TrimLeadingDashes(c) == TrimLeadingDashes(Collapse(r));
      if |r| > 0 {
        assert TrimLeadingDashes(Collapse(r)) == Collapse(r);
        TrimCollapseOfWord(r);
      }
    }
  }

  /** The characters of `s` that are in `[a-z0-9]`, in order. */
  function Alnums(s: string): string {
    if |s| == 0 then "" else (if IsSlugChar(s[0]) then [s[0]] else "") + Alnums(s[1..])
  }

  lemma {:induction false} AlnumsAppend(a: string, b: string)
    ensures Alnums(a + b) == Alnums(a) + Alnums(b)
    decreases |a|
  {
    if |a| == 0 {
      assert a + b == b;
    } else {
      assert a + b == [a[0]] + (a[1..] + b);
      AlnumsCons(a[0], a[1..] + b);
      AlnumsAppend(a[1..], b);
      assert a == [a[0]] + a[1..];
      AlnumsCons(a[0], a[1..]);
    }
  }

  lemma {:induction false} AlnumsOfOthers(s: string)
    requires forall i :: 0 <= i < |s| ==> !IsSlugChar(s[i])
    ensures Alnums(s) == ""
    decreases |s|
  {
    if |s| > 0 {
      AlnumsOfOthers(s[1..]);
    }
  }

  lemma AlnumsDropPrefix(s: string, k: nat)
    requires k <= |s|
    requires forall i :: 0 <= i < k ==> !IsSlugChar(s[i])
    ensures Alnums(s[k..]) == Alnums(s)
  {
    assert s == s[..k] + s[k..];
    AlnumsAppend(s[..k], s[k..]);
    AlnumsOfOthers(s[..k]);
  }

  lemma AlnumsCons(c: char, t: string)
    ensures Alnums([c] + t) == (if IsSlugChar(c) then [c] else "") + Alnums(t)
  {
    assert ([c] + t)[0] == c;
    assert ([c] + t)[1..] == t;
  }

  lemma {:induction false} AlnumsCollapse(s: string)
    ensures Alnums(Collapse(s)) == Alnums(s)
    decreases |s|
  {
    if |s| > 0 {
      if IsSlugChar(s[0]) {
        var t := Collapse(s[1..]);
        assert Collapse(s) == [s[0]] + t;
        AlnumsCons(s[0], t);
        AlnumsCollapse(s[1..]);
      } else {
        var rest := SkipRun(s[1..]);
        var t := Collapse(rest);
        assert Collapse(s) == ['-'] + t;
        AlnumsCons('-', t);
        AlnumsCollapse(rest);
        AlnumsDropPrefix(s[1..], |s[1..]| - |rest|);
      }
    }
  }

  lemma AlnumsTrimLeading(s: string)
    ensures Alnums(TrimLeadingDashes(s)) == Alnums(s)
  {
    var t := TrimLeadingDashes(s);
    AlnumsDropPrefix(s, |s| - |t|);
  }

  lemma AlnumsTrimTrailing(s: string)
    ensures Alnums(TrimTrailingDashes(s)) == Alnums(s)
  {
    var r := TrimTrailingDashes(s);
    var tail := s[|r|..];
    assert s == r + tail;
    assert forall i :: 0 <= i < |tail| ==> tail[i] == s[|r| + i];
    AlnumsAppend(r, tail);
    AlnumsOfOthers(tail);
  }

  /** Stripping and collapsing only ever remove or replace characters outside `[a-z0-9]`. */
  lemma SlugifyKeepsAlnums(lower: string)
    ensures Alnums(Slugify(lower)) == Alnums(lower)
  {
    var c := Collapse(lower);
    var t := TrimLeadingDashes(c);
    assert Slugify(lower) == StripDashes(c) == TrimTrailingDashes(t);
    AlnumsCollapse(lower);
    AlnumsTrimLeading(c);
    AlnumsTrimTrailing(t);
  }

  lemma {:induction false} CollapseFixesDashSeparated(s: string)
    requires DashSeparated(s)
    ensures Collapse(s) == s
    decreases |s|
  {
    if |s| > 0 {
      DashSeparatedSlice(s, 1, |s|);
      CollapseFixesDashSeparated(s[1..]);
      if IsSlugChar(s[0]) {
        assert Collapse(s) == [s[0]] + Collapse(s[1..]);
      } else {
        assert |s| > 1 ==> s[1] != '-';
        assert SkipRun(s[1..]) == s[1..];
        assert Collapse(s) == "-" + Collapse(s[1..]);
      }
      assert s == [s[0]] + s[1..];
    }
  }

  /** A slug is its own slug, and lower-casing leaves it alone. */
  lemma SlugifyFixesSlugs(s: string)
    requires IsSlug(s)
    ensures Lower(s) == s
    ensures Slugify(s) == s
  {
    LowerFixesLowerCase(s);
    CollapseFixesDashSeparated(s);
  }

  /** The slug of a label: the words of its lower-cased form, joined by single dashes. */
  function Slug(name: string): (r: string)
    ensures IsSlug(r)
    ensures r == Join(Words(Lower(name)), "-")
  {
    SlugifyJoinsWords(Lower(name));
    Slugify(Lower(name))
  }

  /** A space between two characters of `[a-z0-9]` becomes a dash: `a b` slugs to `a-b`. */
  lemma SpacedLabelIsDashed(a: char, b: char)
    requires IsSlugChar(a) && IsSlugChar(b)
    ensures Slugify([a, ' ', b]) == [a, '-', b]
  {
    SlugifyJoinsWords([a, ' ', b]);
    TwoWords(a, b);
    JoinCons([a], [[b]], "-");
    assert [[a], [b]] == [[a]] + [[b]];
    assert [a] + ("-" + [b]) == [a, '-', b];
  }

  lemma TwoWords(a: char, b: char)
    requires IsSlugChar(a) && IsSlugChar(b)
    ensures Words([a, ' ', b]) == [[a], [b]]
  {
    var s := [a, ' ', b];
    assert s[1..] == [' ', b] && s[1..][1..] == [b] && s[1..][1..][1..] == [];
    assert Words([b]) == [[b]];
    assert Words([' ', b]) == [[b]];
  }

  /** Slugging is idempotent. */
  lemma SlugIdempotent(name: string)
    ensures Slug(Slug(name)) == Slug(name)
  {
    SlugifyFixesSlugs(Slug(name));
  }

  /** The three spellings of a label tried in turn: as given, lower-cased, slugged. */
  function KeyVariants(name: string): seq<string> {
    [name, Lower(name), Slug(name)]
  }

  /** The suffixes tried for each spelling, JSON first. */
  const IndexExtensions: seq<string> := [".json", ".txt"]

  /**
   * The object keys tried, in order: each spelling with each suffix under `prefix`.
   * The six-element literal mirrors the source's key list entry for entry;
   * `CandidateKeysOrder` ties it to `KeyVariants` and `IndexExtensions`.
   */
  function CandidateKeys(prefix: string, name: string): (keys: seq<string>)
    ensures |keys| == 6
  {
    var raw := name;
    var lower := Lower(raw);
    var slug := Slugify(lower);
    [ prefix + "/" + raw + ".json",
      prefix + "/" + raw + ".txt",
      prefix + "/" + lower + ".json",
      prefix + "/" + lower + ".txt",
      prefix + "/" + slug + ".json",
      prefix + "/" + slug + ".txt" ]
  }

  /** Index arithmetic of a six-key list built from three spellings and two suffixes. */
  lemma SixKeys(prefix: string, vs: seq<string>, json: string, txt: string)
    requires |vs| == 3
    ensures var keys := [ prefix + "/" + vs[0] + json, prefix + "/" + vs[0] + txt,
                          prefix + "/" + vs[1] + json, prefix + "/" + vs[1] + txt,
                          prefix + "/" + vs[2] + json, prefix + "/" + vs[2] + txt ];
            forall i :: 0 <= i < 3 ==>
              keys[2 * i] == prefix + "/" + vs[i] + json && keys[2 * i + 1] == prefix + "/" + vs[i] + txt
  {
    var keys := [ prefix + "/" + vs[0] + json, prefix + "/" + vs[0] + txt,
                  prefix + "/" + vs[1] + json, prefix + "/" + vs[1] + txt,
                  prefix + "/" + vs[2] + json, prefix + "/" + vs[2] + txt ];
    forall i | 0 <= i < 3
      ensures keys[2 * i] == prefix + "/" + vs[i] + json && keys[2 * i + 1] == prefix + "/" + vs[i] + txt
    {
      if i == 0 {
      } else if i == 1 {
        assert 2 * i == 2 && 2 * i + 1 == 3;
      } else {
        assert 2 * i == 4 && 2 * i + 1 == 5;
      }
    }
  }

  /**
   * The keys are exactly six: the raw, lower-cased and slugged spellings in
   * that order, each first with `.json` and then with `.txt`, under `prefix/`.
   */
  lemma CandidateKeysOrder(prefix: string, name: string)
    ensures |CandidateKeys(prefix, name)| == 2 * |KeyVariants(name)|
    ensures forall i :: 0 <= i < |KeyVariants(name)| ==>
              && CandidateKeys(prefix, name)[2 * i] == prefix + "/" + KeyVariants(name)[i] + IndexExtensions[0]
              && CandidateKeys(prefix, name)[2 * i + 1] == prefix + "/" + KeyVariants(name)[i] + IndexExtensions[1]
  {
    var vs := KeyVariants(name);
    assert IndexExtensions == [".json", ".txt"];
    assert vs == [name, Lower(name), Slugify(Lower(name))];
    SixKeys(prefix, vs, ".json", ".txt");
  }

  /** For a label that already is a slug, the three spellings give the same two keys. */
  lemma SlugLabelRepeatsKeys(prefix: string, name: string)
    requires IsSlug(name)
    ensures var keys := CandidateKeys(prefix, name);
            keys[0] == keys[2] == keys[4] && keys[1] == keys[3] == keys[5]
  {
    SlugifyFixesSlugs(name);
    var lower := Lower(name);
    assert lower == name;
    var slug := Slugify(lower);
    assert slug == name;
    var json, txt := prefix + "/" + name + ".json", prefix + "/" + name + ".txt";
    assert CandidateKeys(prefix, name) == [json, txt, json, txt, json, txt];
  }

  /** A storage read that yields a non-empty URL. */
  predicate IsHit(answer: Option<string>) {
    answer.Some? && answer.value != ""
  }

  /** The position of the first key whose read is a hit. */
  function FirstHitIndex(bucket: string, keys: seq<string>, tryKey: (string, string) -> Option<string>): (r: Option<nat>)
    ensures r.None? <==> forall j :: 0 <= j < |keys| ==> !IsHit(tryKey(bucket, keys[j]))
    ensures r.Some? ==> r.value < |keys| && IsHit(tryKey(bucket, keys[r.value]))
    ensures r.Some? ==> forall j :: 0 <= j < r.value ==> !IsHit(tryKey(bucket, keys[j]))
  {
    if |keys| == 0 then None
    else if IsHit(tryKey(bucket, keys[0])) then Some(0)
    else
      match FirstHitIndex(bucket, keys[1..], tryKey)
      case None => None
      case Some(i) => Some(i + 1)
  }

  /**
   * `_lookup_product_url_for_label`: nothing without a configured bucket;
   * otherwise the URL read from the first candidate key that yields one.
   */
  function LookupProductUrl(
    bucket: Option<string>, prefixSetting: Option<string>, name: string,
    tryKey: (string, string) -> Option<string>): (r: Option<string>)
    ensures bucket.None? || bucket.value == "" ==> r.None?
    ensures r.Some? ==> r.value != ""
    ensures r.Some? ==>
              exists k :: 0 <= k < 6
                && r == tryKey(bucket.value, CandidateKeys(prefixSetting.GetOr(DefaultPrefix), name)[k])
                && forall j :: 0 <= j < k ==>
                     !IsHit(tryKey(bucket.value, CandidateKeys(prefixSetting.GetOr(DefaultPrefix), name)[j]))
    ensures bucket.Some? && bucket.value != "" && r.None? ==>
              forall j :: 0 <= j < 6 ==>
                !IsHit(tryKey(bucket.value, CandidateKeys(prefixSetting.GetOr(DefaultPrefix), name)[j]))
  {
    if bucket.None? || bucket.value == "" then None
    else FirstHit(bucket.value, CandidateKeys(prefixSetting.GetOr(DefaultPrefix), name), tryKey)
  }

  /** The answer read from the first key that is a hit, if any. */
  function FirstHit(bucket: string, keys: seq<string>, tryKey: (string, string) -> Option<string>): (r: Option<string>)
    ensures r.Some? ==> r.value != ""
    ensures r.Some? ==>
              exists k :: 0 <= k < |keys| && r == tryKey(bucket, keys[k])
                && forall j :: 0 <= j < k ==> !IsHit(tryKey(bucket, keys[j]))
    ensures r.None? ==> forall j :: 0 <= j < |keys| ==> !IsHit(tryKey(bucket, keys[j]))
  {
    match FirstHitIndex(bucket, keys, tryKey)
    case None => None
    case Some(k) => tryKey(bucket, keys[k])
  }
}
