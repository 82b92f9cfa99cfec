/** The base name of the encoder's output file: the recording's title,
    plus '_' and the subtitle when the subtitle is non-empty, with every
    maximal run of characters outside [A-Za-z0-9] replaced by one '_'
    (Ruby's `gsub!(/[^A-Za-z0-9]+/, "_")`). */
module OutputName {
  import Catalog

  predicate IsAlnum(c: char) {
    'A' <= c <= 'Z' || 'a' <= c <= 'z' || '0' <= c <= '9'
  }

  /** The characters a derived name may contain. */
  predicate IsNameChar(c: char) {
    IsAlnum(c) || c == '_'
  }

  predicate NameCharsOnly(s: string) {
    forall i :: 0 <= i < |s| ==> IsNameChar(s[i])
  }

  /** No two consecutive underscores. */
  predicate NoDoubleUnderscore(s: string) {
    forall i :: 0 < i < |s| ==> !(s[i - 1] == '_' && s[i] == '_')
  }

  /** The alphanumeric characters of `s`, in order. */
  function Alnums(s: string): (a: string)
    ensures |a| <= |s|
  {
    if |s| == 0 then []
    else if IsAlnum(s[0]) then [s[0]] + Alnums(s[1..])
    else Alnums(s[1..])
  }

  /** `s` without its leading maximal run of non-alphanumeric characters. */
  function SkipRun(s: string): (r: string)
    ensures |r| <= |s|
    ensures |r| == 0 || IsAlnum(r[0])
  {
    if |s| == 0 || IsAlnum(s[0]) then s else SkipRun(s[1..])
  }

  /** The substitution: each maximal non-alphanumeric run becomes "_". */
  function Sanitize(s: string): string
    decreases |s|
  {
    if |s| == 0 then []
    else if IsAlnum(s[0]) then [s[0]] + Sanitize(s[1..])
    else "_" + Sanitize(SkipRun(s[1..]))
  }

  /** The result holds only name characters, is empty exactly when the input
      is, and starts with '_' exactly when the input starts outside
      [A-Za-z0-9]. */
  lemma {:induction false} SanitizeShape(s: string)
    ensures |Sanitize(s)| <= |s|
    ensures |Sanitize(s)| == 0 <==> |s| == 0
    ensures |s| > 0 ==> (Sanitize(s)[0] == '_' <==> !IsAlnum(s[0]))
    ensures NameCharsOnly(Sanitize(s))
    decreases |s|
  {
    if |s| > 0 {
      var r := Sanitize(s);
      if IsAlnum(s[0]) {
        SanitizeShape(s[1..]);
        assert r == [s[0]] + Sanitize(s[1..]);
      } else {
        SanitizeShape(SkipRun(s[1..]));
        assert r == "_" + Sanitize(SkipRun(s[1..]));
      }
      assert forall i :: 1 <= i < |r| ==> IsNameChar(r[i]);
    }
  }

  /** The string the substitution is applied to. */
  function Joined(title: string, subtitle: string): string {
    if subtitle == "" then title else title + "_" + subtitle
  }

  /** The output base name derived from a recording's title and subtitle. */
  function DeriveName(title: string, subtitle: string): (name: string)
    ensures NameCharsOnly(name)
    ensures NoDoubleUnderscore(name)
    ensures Sanitize(name) == name
    ensures Alnums(name) == Alnums(title) + Alnums(subtitle)
    ensures subtitle == "" ==> name == Sanitize(title)
    ensures subtitle != "" ==> name == Sanitize(title + "_" + subtitle)
  {
    var joined := Joined(title, subtitle);
    SanitizeShape(joined);
    SanitizeNoDoubleUnderscore(joined);
    SanitizeIdempotent(joined);
    SanitizeKeepsAlnums(joined);
    AlnumsOfJoined(title, subtitle);
    Sanitize(joined)
  }

  /** The output name of the recording selected for encoding. */
  function RecordingName(rec: Catalog.Recording): (name: string)
    ensures NameCharsOnly(name) && NoDoubleUnderscore(name)
    ensures Alnums(name) == Alnums(rec.title) + Alnums(rec.subtitle)
  {
    DeriveName(rec.title, rec.subtitle)
  }

  /** Putting one character in front keeps a string free of "__" unless an
      underscore lands before an underscore. */
  lemma ConsNoDoubleUnderscore(c: char, rest: string)
    requires NoDoubleUnderscore(rest)
    requires c == '_' ==> |rest| == 0 || rest[0] != '_'
    ensures NoDoubleUnderscore([c] + rest)
  {
    var r := [c] + rest;
    forall i | 0 < i < |r|
      ensures !(r[i - 1] == '_' && r[i] == '_')
    {
      if i > 1 {
        assert r[i - 1] == rest[i - 2] && r[i] == rest[i - 1];
      }
    }
  }

  lemma {:induction false} SanitizeNoDoubleUnderscore(s: string)
    ensures NoDoubleUnderscore(Sanitize(s))
    decreases |s|
  {
    if |s| == 0 {
    } else if IsAlnum(s[0]) {
      SanitizeNoDoubleUnderscore(s[1..]);
      assert Sanitize(s) == [s[0]] + Sanitize(s[1..]);
      ConsNoDoubleUnderscore(s[0], Sanitize(s[1..]));
    } else {
      var tail := SkipRun(s[1..]);
      SanitizeShape(tail);
      SanitizeNoDoubleUnderscore(tail);
      assert Sanitize(s) == ['_'] + Sanitize(tail);
      ConsNoDoubleUnderscore('_', Sanitize(tail));
    }
  }

  /** A string of name characters without "__" is left unchanged. */
  lemma {:induction false} SanitizeFixesCleanNames(t: string)
    requires NameCharsOnly(t) && NoDoubleUnderscore(t)
    ensures Sanitize(t) == t
    decreases |t|
  {
    if |t| > 0 {
      var tail := t[1..];
      assert NameCharsOnly(tail) by {
        forall i | 0 <= i < |tail| ensures IsNameChar(tail[i]) {
          assert tail[i] == t[i + 1];
        }
      }
      assert NoDoubleUnderscore(tail) by {
        forall i | 0 < i < |tail| ensures !(tail[i - 1] == '_' && tail[i] == '_') {
          assert tail[i - 1] == t[i] && tail[i] == t[i + 1];
        }
      }
      SanitizeFixesCleanNames(tail);
      if IsAlnum(t[0]) {
        assert Sanitize(t) == [t[0]] + Sanitize(tail);
      } else {
        assert |tail| == 0 || IsAlnum(tail[0]) by {
          if |tail| > 0 {
            assert tail[0] == t[1];
            assert !(t[0] == '_' && t[1] == '_');
          }
        }
        assert SkipRun(tail) == tail;
        assert Sanitize(t) == "_" + Sanitize(tail);
        assert t == [t[0]] + tail;
      }
    }
  }

  lemma SanitizeIdempotent(s: string)
    ensures Sanitize(Sanitize(s)) == Sanitize(s)
  {
    SanitizeShape(s);
    SanitizeNoDoubleUnderscore(s);
    SanitizeFixesCleanNames(Sanitize(s));
  }

  lemma {:induction false} AlnumsSkipRun(s: string)
    ensures Alnums(SkipRun(s)) == Alnums(s)
    decreases |s|
  {
    if |s| > 0 && !IsAlnum(s[0]) {
      AlnumsSkipRun(s[1..]);
    }
  }

  /** The substitution keeps every alphanumeric character, in order. */
  lemma {:induction false} SanitizeKeepsAlnums(s: string)
    ensures Alnums(Sanitize(s)) == Alnums(s)
    decreases |s|
  {
    if |s| == 0 {
    } else if IsAlnum(s[0]) {
      SanitizeKeepsAlnums(s[1..]);
      var r := Sanitize(s);
      assert r[0] == s[0] && r[1..] == Sanitize(s[1..]);
    } else {
      var tail := SkipRun(s[1..]);
      SanitizeKeepsAlnums(tail);
      AlnumsSkipRun(s[1..]);
      var r := Sanitize(s);
      assert r[0] == '_' && r[1..] == Sanitize(tail);
    }
  }

  lemma {:induction false} AlnumsAppend(a: string, b: string)
    ensures Alnums(a + b) == Alnums(a) + Alnums(b)
    decreases |a|
  {
    if |a| > 0 {
      AlnumsAppend(a[1..], b);
      assert (a + b)[1..] == a[1..] + b;
      assert (a + b)[0] == a[0];
    } else {
      assert a + b == b;
    }
  }

  lemma AlnumsOfJoined(title: string, subtitle: string)
    ensures Alnums(Joined(title, subtitle)) == Alnums(title) + Alnums(subtitle)
  {
    if subtitle != "" {
      AlnumsAppend(title, "_");
      AlnumsAppend(title + "_", subtitle);
      assert Alnums("_") == [] by {
        assert "_"[1..] == [];
      }
    } else {
      assert Alnums(subtitle) == [];
    }
  }

  /** What the substitution still has to produce for the unread input `x`,
      depending on whether the scan is inside a non-alphanumeric run. */
  function Pending(x: string, inRun: bool): string {
    if inRun then Sanitize(SkipRun(x)) else Sanitize(x)
  }

  /** What the scan emits for character `c`. */
  function Emit(c: char, inRun: bool): string {
    if IsAlnum(c) then [c] else if inRun then [] else "_"
  }

  lemma {:induction false} PendingStep(x: string, inRun: bool)
    requires |x| > 0
    ensures Pending(x, inRun) == Emit(x[0], inRun) + Pending(x[1..], !IsAlnum(x[0]))
  {
    if IsAlnum(x[0]) {
      assert SkipRun(x) == x;
      assert Sanitize(x) == [x[0]] + Sanitize(x[1..]);
    } else if inRun {
      assert SkipRun(x) == SkipRun(x[1..]);
    } else {
      assert Sanitize(x) == "_" + Sanitize(SkipRun(x[1..]));
    }
  }

  lemma {:induction false} ScanAdvance(s: string, i: nat, r: string, inRun: bool)
    requires i < |s|
    ensures r + Pending(s[i..], inRun) == (r + Emit(s[i], inRun)) + Pending(s[i + 1..], !IsAlnum(s[i]))
  {
    var x := s[i..];
    assert x[0] == s[i] && x[1..] == s[i + 1..];
    PendingStep(x, inRun);
    var e, q := Emit(s[i], inRun), Pending(s[i + 1..], !IsAlnum(s[i]));
    assert Pending(x, inRun) == e + q;
    assert r + (e + q) == (r + e) + q;
  }

  /** The imperative scan a regex substitution performs: copy alphanumerics,
      emit one '_' when a non-alphanumeric run begins, skip the rest of the run. */
  method SanitizeScan(s: string) returns (r: string)
    ensures r == Sanitize(s)
  {
    r := [];
    var inRun := false;
    var i := 0;
    assert s[i..] == s;
    while i < |s|
      invariant 0 <= i <= |s|
      invariant Sanitize(s) == r + Pending(s[i..], inRun)
    {
      var c := s[i];
      ScanAdvance(s, i, r, inRun);
      if IsAlnum(c) {
        r := r + [c];
      } else if !inRun {
        r := r + "_";
      }
      inRun := !IsAlnum(c);
      i := i + 1;
    }
    assert s[i..] == [];
  }

  predicate AllAlnum(w: string) {
    forall i :: 0 <= i < |w| ==> IsAlnum(w[i])
  }

  predicate NoAlnum(g: string) {
    forall i :: 0 <= i < |g| ==> !IsAlnum(g[i])
  }

  /** An alphanumeric word is copied through unchanged. */
  lemma {:induction false} SanitizeWord(w: string, t: string)
    requires AllAlnum(w)
    ensures Sanitize(w + t) == w + Sanitize(t)
    decreases |w|
  {
    if |w| == 0 {
      assert w + t == t;
    } else {
      var x := w + t;
      assert x[0] == w[0] && x[1..] == w[1..] + t;
      assert Sanitize(x) == [w[0]] + Sanitize(w[1..] + t);
      SanitizeWord(w[1..], t);
      assert w + Sanitize(t) == [w[0]] + (w[1..] + Sanitize(t));
    }
  }

  lemma {:induction false} SkipRunOver(g: string, t: string)
    requires NoAlnum(g)
    requires |t| == 0 || IsAlnum(t[0])
    ensures SkipRun(g + t) == t
    decreases |g|
  {
    if |g| == 0 {
      assert g + t == t;
    } else {
      var x := g + t;
      assert x[0] == g[0] && x[1..] == g[1..] + t;
      SkipRunOver(g[1..], t);
    }
  }

  /** A maximal non-empty run of other characters becomes one '_'. */
  lemma {:induction false} SanitizeRun(g: string, t: string)
    requires |g| > 0 && NoAlnum(g)
    requires |t| == 0 || IsAlnum(t[0])
    ensures Sanitize(g + t) == "_" + Sanitize(t)
  {
    var x := g + t;
    assert x[0] == g[0] && x[1..] == g[1..] + t;
    SkipRunOver(g[1..], t);
  }

  /** `s` is empty or ends with an alphanumeric character, so no run of
      other characters reaches its end. */
  predicate EndsInAlnum(s: string) {
    |s| == 0 || IsAlnum(s[|s| - 1])
  }

  /** Skipping a leading run stops inside `x` when `x` ends with an
      alphanumeric, whatever follows it. */
  lemma {:induction false} SkipRunAppend(x: string, b: string)
    requires |x| > 0 && IsAlnum(x[|x| - 1])
    ensures SkipRun(x + b) == SkipRun(x) + b
    ensures |SkipRun(x)| > 0 && IsAlnum(SkipRun(x)[|SkipRun(x)| - 1])
    ensures |SkipRun(x)| < |x| || SkipRun(x) == x
    decreases |x|
  {
    var xb := x + b;
    assert xb[0] == x[0];
    if !IsAlnum(x[0]) {
      assert xb[1..] == x[1..] + b;
      assert x[1..][|x[1..]| - 1] == x[|x| - 1];
      SkipRunAppend(x[1..], b);
    }
  }

  lemma {:induction false} SplitAlnumHead(a: string, b: string)
    requires |a| > 0 && IsAlnum(a[0])
    requires Sanitize(a[1..] + b) == Sanitize(a[1..]) + Sanitize(b)
    ensures Sanitize(a + b) == Sanitize(a) + Sanitize(b)
  {
    var ab, h := a + b, [a[0]];
    var x, y := Sanitize(a[1..]), Sanitize(b);
    assert ab[0] == a[0] && ab[1..] == a[1..] + b;
    assert Sanitize(ab) == h + (x + y);
    assert h + (x + y) == (h + x) + y;
  }

  lemma {:induction false} SplitRunHead(a: string, b: string)
    requires |a| > 0 && !IsAlnum(a[0])
    requires SkipRun(a[1..] + b) == SkipRun(a[1..]) + b
    requires Sanitize(SkipRun(a[1..]) + b) == Sanitize(SkipRun(a[1..])) + Sanitize(b)
    ensures Sanitize(a + b) == Sanitize(a) + Sanitize(b)
  {
    var ab, rest := a + b, SkipRun(a[1..]);
    var x, y := Sanitize(rest), Sanitize(b);
    assert ab[0] == a[0] && ab[1..] == a[1..] + b;
    assert Sanitize(ab) == "_" + (x + y);
    assert "_" + (x + y) == ("_" + x) + y;
  }

  /** The substitution splits at a boundary that follows an alphanumeric:
      no run of other characters crosses it. */
  lemma {:induction false} SanitizeSplitsAfterAlnum(a: string, b: string)
    requires EndsInAlnum(a)
    ensures Sanitize(a + b) == Sanitize(a) + Sanitize(b)
    decreases |a|
  {
    if |a| == 0 {
      assert a + b == b;
    } else {
      var tail := a[1..];
      assert |tail| > 0 ==> tail[|tail| - 1] == a[|a| - 1];
      if IsAlnum(a[0]) {
        SanitizeSplitsAfterAlnum(tail, b);
        SplitAlnumHead(a, b);
      } else {
        SkipRunAppend(tail, b);
        SanitizeSplitsAfterAlnum(SkipRun(tail), b);
        SplitRunHead(a, b);
      }
    }
  }

  /** The join of a title ending and a subtitle starting with an
      alphanumeric survives the substitution as one '_'. */
  lemma {:induction false} JoinSurvives(title: string, subtitle: string)
    requires |title| > 0 && IsAlnum(title[|title| - 1])
    requires |subtitle| > 0 && IsAlnum(subtitle[0])
    ensures Sanitize(title + ("_" + subtitle)) == Sanitize(title) + ("_" + Sanitize(subtitle))
  {
    SanitizeSplitsAfterAlnum(title, "_" + subtitle);
    assert NoAlnum("_");
    SanitizeRun("_", subtitle);
  }

  /** When the title ends and the subtitle starts with an alphanumeric, the
      name is the two substituted parts joined by one '_'. */
  lemma {:induction false} DeriveSeparatesWords(title: string, subtitle: string)
    requires |title| > 0 && IsAlnum(title[|title| - 1])
    requires |subtitle| > 0 && IsAlnum(subtitle[0])
    ensures DeriveName(title, subtitle) == Sanitize(title) + "_" + Sanitize(subtitle)
  {
    assert title + "_" + subtitle == title + ("_" + subtitle);
    JoinSurvives(title, subtitle);
  }

  /** A word followed by a run of other characters comes out as the word
      and one underscore, ahead of whatever the rest comes out as. */
  lemma {:induction false} SanitizeWordRun(w: string, g: string, t: string)
    requires AllAlnum(w) && |g| > 0 && NoAlnum(g)
    requires |t| == 0 || IsAlnum(t[0])
    ensures Sanitize(w + (g + t)) == w + ("_" + Sanitize(t))
  {
    SanitizeRun(g, t);
    SanitizeWord(w, g + t);
  }

  /** Four words separated and followed by runs of other characters come
      out as the words, each followed by a single underscore. */
  lemma {:induction false} SanitizeFourWords(w1: string, g1: string, w2: string, g2: string,
                          w3: string, g3: string, w4: string, g4: string)
    requires AllAlnum(w1) && AllAlnum(w2) && AllAlnum(w3) && AllAlnum(w4)
    requires |w2| > 0 && |w3| > 0 && |w4| > 0
    requires |g1| > 0 && |g2| > 0 && |g3| > 0 && |g4| > 0
    requires NoAlnum(g1) && NoAlnum(g2) && NoAlnum(g3) && NoAlnum(g4)
    ensures Sanitize(w1 + (g1 + (w2 + (g2 + (w3 + (g3 + (w4 + g4)))))))
         == w1 + ("_" + (w2 + ("_" + (w3 + ("_" + (w4 + "_"))))))
  {
    var t3 := w4 + g4;
    var t2 := w3 + (g3 + t3);
    var t1 := w2 + (g2 + t2);
    assert Sanitize([]) == [];
    assert w4 + (g4 + []) == t3;
    SanitizeWordRun(w4, g4, []);
    SanitizeWordRun(w3, g3, t3);
    SanitizeWordRun(w2, g2, t2);
    SanitizeWordRun(w1, g1, t1);
  }

  // The example's strings arrive as requires-bound parameters and are cut
  // into pieces by the two lemmas below, so that the substitution proof
  // never unfolds a string literal character by character, which is costly
  // to verify.

  /** The worked example's title, cut into words and separator runs. */
  lemma MondayTitlePieces(title: string)
    requires title == "Monday's Game: Live!"
    ensures title == "Monday" + ("'" + ("s" + (" " + ("Game" + (": " + ("Live" + "!"))))))
  {
  }

  /** The worked example's expected name, cut the same way. */
  lemma MondayNamePieces(name: string)
    requires name == "Monday_s_Game_Live_"
    ensures name == "Monday" + ("_" + ("s" + ("_" + ("Game" + ("_" + ("Live" + "_"))))))
  {
  }

  /** The worked example: a title with an apostrophe, a colon and an
      exclamation mark and no subtitle. */
  lemma MondayGameExample(title: string, name: string)
    requires title == "Monday's Game: Live!"
    requires name == "Monday_s_Game_Live_"
    ensures DeriveName(title, "") == name
  {
    MondayTitlePieces(title);
    MondayNamePieces(name);
    SanitizeFourWords("Monday", "'", "s", " ", "Game", ": ", "Live", "!");
  }
}
