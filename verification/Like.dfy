/** Pattern matching as PostgreSQL does it (PostgreSQL 16 manual, section 9.7.1), and what the
    listing's "%term%" patterns mean. Case folding depends on the database's locale, so it is
    a parameter; all that is asked of it is that the pattern characters stay what they are. */
module Like {
  const ESCAPE: char := '\\'

  predicate Meta(c: char) {
    c == '%' || c == '_' || c == ESCAPE
  }

  ghost predicate MetaSafe(fold: char -> char) {
    forall c :: if Meta(c) then fold(c) == c else !Meta(fold(c))
  }

  function Fold(fold: char -> char, s: string): string {
    seq(|s|, i requires 0 <= i < |s| => fold(s[i]))
  }

  /** `p LIKE`: percent matches any run, underscore any one character, and the escape
      character takes the next one literally. */
  predicate Matches(p: string, s: string)
    decreases |p|, |s|
  {
    if p == "" then s == ""
    else if p[0] == '%' then Matches(p[1..], s) || (s != "" && Matches(p, s[1..]))
    else if s == "" then false
    else if p[0] == '_' then Matches(p[1..], s[1..])
    else if p[0] == ESCAPE then |p| > 1 && p[1] == s[0] && Matches(p[2..], s[1..])
    else p[0] == s[0] && Matches(p[1..], s[1..])
  }

  predicate ILike(fold: char -> char, field: string, pattern: string) {
    Matches(Fold(fold, pattern), Fold(fold, field))
  }

  /** The pattern ListByUser binds. */
  function Containing(term: string): string {
    "%" + term + "%"
  }

  predicate OccursAt(s: string, term: string, i: nat) {
    i + |term| <= |s| && s[i..i + |term|] == term
  }

  predicate Contains(s: string, term: string) {
    exists i :: 0 <= i <= |s| && OccursAt(s, term, i)
  }

  ghost predicate Plain(term: string) {
    forall i :: 0 <= i < |term| ==> !Meta(term[i])
  }

  // ---- matching a plain term ----

  lemma {:induction false} PercentTail(s: string)
    ensures Matches("%", s)
  {
    if s != "" {
      PercentTail(s[1..]);
    }
  }

  lemma {:induction false} PlainPrefix(term: string, s: string)
    requires Plain(term)
    ensures Matches(term + "%", s) <==> |term| <= |s| && s[..|term|] == term
  {
    var p := term + "%";
    if term == "" {
      assert p == "%";
      PercentTail(s);
    } else if s != "" {
      assert p[1..] == term[1..] + "%";
      PlainPrefix(term[1..], s[1..]);
      if |term| <= |s| {
        assert s[..|term|] == [s[0]] + s[1..][..|term| - 1];
        assert term == [term[0]] + term[1..];
      }
    }
  }

  /** A leading percent tries every suffix. */
  lemma {:induction false} PercentHead(p: string, s: string)
    ensures Matches("%" + p, s) <==> exists i :: 0 <= i <= |s| && Matches(p, s[i..])
    decreases |s|
  {
    var q := "%" + p;
    assert q[1..] == p && s[0..] == s;
    if s != "" {
      PercentHead(p, s[1..]);
      if i :| 0 <= i <= |s| && Matches(p, s[i..]) {
        if i > 0 {
          assert s[i..] == s[1..][i - 1..];
        }
      }
      if i :| 0 <= i <= |s[1..]| && Matches(p, s[1..][i..]) {
        assert s[i + 1..] == s[1..][i..];
      }
    }
  }

  lemma ContainingSplits(term: string)
    ensures Containing(term) == "%" + (term + "%")
  {
  }

  /** For a plain term, "%term%" is exactly substring containment. */
  lemma PlainContains(term: string, s: string)
    requires Plain(term)
    ensures Matches(Containing(term), s) <==> Contains(s, term)
  {
    ContainingSplits(term);
    PercentHead(term + "%", s);
    forall i | 0 <= i <= |s|
      ensures Matches(term + "%", s[i..]) <==> OccursAt(s, term, i)
    {
      PlainPrefix(term, s[i..]);
      if i + |term| <= |s| {
        assert s[i..][..|term|] == s[i..i + |term|];
      }
    }
  }

  // ---- what goes wrong otherwise ----

  /** A field that `term` read as a pattern matches, but that does not contain `term`:
      wildcards replaced by `x`, escapes resolved. */
  function Decoy(term: string, x: char): string {
    if term == "" then ""
    else if term[0] == ESCAPE then
      if |term| == 1 then "%" else [term[1]] + Decoy(term[2..], x)
    else [if term[0] == '%' || term[0] == '_' then x else term[0]] + Decoy(term[1..], x)
  }

  lemma {:induction false} DecoyMatches(term: string, x: char)
    ensures Matches(term + "%", Decoy(term, x))
  {
    var p, d := term + "%", Decoy(term, x);
    if term == "" {
      PercentTail("");
    } else if term[0] == ESCAPE {
      if |term| == 1 {
        assert p[2..] == "" && d[1..] == "";
      } else {
        DecoyMatches(term[2..], x);
        assert p[2..] == term[2..] + "%" && d[1..] == Decoy(term[2..], x);
      }
    } else {
      DecoyMatches(term[1..], x);
      assert p[1..] == term[1..] + "%" && d[1..] == Decoy(term[1..], x);
      if term[0] == '%' {
        assert Matches(p[1..], d[1..]);
        assert p[0] == '%' && Matches(p, d[1..]);
      }
    }
  }

  /** A decoy is no longer than its term, and differs from it unless the term is plain. */
  lemma {:induction false} DecoyDiffers(term: string, x: char)
    requires !Meta(x)
    ensures |Decoy(term, x)| <= |term|
    ensures Decoy(term, x) == term ==> Plain(term)
  {
    if term == "" {
    } else if term[0] == ESCAPE {
      if |term| > 1 {
        DecoyDiffers(term[2..], x);
      }
    } else {
      var d := Decoy(term, x);
      DecoyDiffers(term[1..], x);
      assert d[1..] == Decoy(term[1..], x);
      if d == term {
        forall i | 0 <= i < |term| ensures !Meta(term[i]) {
          assert i > 0 ==> term[i] == term[1..][i - 1];
          assert d[0] == term[0];
        }
      }
    }
  }

  lemma ShortContains(s: string, term: string)
    requires |s| <= |term| && Contains(s, term)
    ensures s == term
  {
    assert s[0..|s|] == s;
  }

  lemma MatchesAnywhere(p: string, s: string)
    requires Matches(p, s)
    ensures Matches("%" + p, s)
  {
    PercentHead(p, s);
    assert s[0..] == s;
  }

  lemma FoldConcat(fold: char -> char, s: string, t: string)
    ensures Fold(fold, s + t) == Fold(fold, s) + Fold(fold, t)
  {
  }

  lemma FoldContaining(fold: char -> char, term: string)
    requires MetaSafe(fold)
    ensures Fold(fold, Containing(term)) == Containing(Fold(fold, term))
  {
    assert Meta('%');
    assert Fold(fold, "%") == "%";
    FoldConcat(fold, "%" + term, "%");
    FoldConcat(fold, "%", term);
  }

  lemma {:induction false} FoldDecoy(fold: char -> char, term: string, x: char)
    requires MetaSafe(fold)
    ensures Fold(fold, Decoy(term, x)) == Decoy(Fold(fold, term), fold(x))
  {
    if term != "" {
      var f := Fold(fold, term);
      assert Meta(ESCAPE) && Meta('%') && Meta('_');
      assert f[0] == fold(term[0]);
      if term[0] == ESCAPE {
        if |term| > 1 {
          FoldDecoy(fold, term[2..], x);
          assert f[2..] == Fold(fold, term[2..]);
        }
      } else {
        FoldDecoy(fold, term[1..], x);
        assert f[1..] == Fold(fold, term[1..]);
      }
    }
  }

  lemma FoldPlain(fold: char -> char, term: string)
    requires MetaSafe(fold)
    ensures Plain(Fold(fold, term)) <==> Plain(term)
  {
    var f := Fold(fold, term);
    forall i | 0 <= i < |term| ensures Meta(f[i]) <==> Meta(term[i]) {
      assert f[i] == fold(term[i]);
    }
    if Plain(f) {
      forall i | 0 <= i < |term| ensures !Meta(term[i]) {
        assert !Meta(f[i]);
      }
    }
  }

  /** Search means case-insensitive containment, for every field, exactly when the term has
      no percent sign, underscore or backslash. */
  lemma SearchIsContainment(fold: char -> char, term: string)
    requires MetaSafe(fold)
    ensures (forall field: string ::
              ILike(fold, field, Containing(term)) <==> Contains(Fold(fold, field), Fold(fold, term)))
       <==> Plain(term)
  {
    var f := Fold(fold, term);
    FoldContaining(fold, term);
    FoldPlain(fold, term);
    if Plain(term) {
      forall field: string
        ensures ILike(fold, field, Containing(term)) <==> Contains(Fold(fold, field), f)
      {
        PlainContains(f, Fold(fold, field));
      }
    } else {
      var field := Decoy(term, 'x');
      FoldDecoy(fold, term, 'x');
      DecoyMatches(f, fold('x'));
      ContainingSplits(f);
      MatchesAnywhere(f + "%", Fold(fold, field));
      DecoyDiffers(f, fold('x'));
      if Contains(Fold(fold, field), f) {
        ShortContains(Fold(fold, field), f);
        assert false;
      }
      assert ILike(fold, field, Containing(term));
    }
  }
}
