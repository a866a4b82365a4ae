/** The two regular expressions parsers/imports.py matches module names against.
    Both have the shape `^.*\.user_parsers\..*TAIL$` under `re.match`: `.` matches
    any character but a newline, and `$` matches at the end of the name or just
    before a newline that ends it. */
module Patterns {
  import opened PyStr

  /** The segment every plugin module name carries */
  const PluginSegment := ".user_parsers."

  predicate NoNewline(s: string) {
    forall i :: 0 <= i < |s| ==> s[i] != '\n'
  }

  /** `.*\.user_parsers\..*` matches the whole of `head` */
  predicate PluginHead(head: string) {
    NoNewline(head) && Contains(head, PluginSegment)
  }

  /** The pattern matches the whole of t, the literal tail t ending it */
  predicate MatchesWhole(t: string, tail: string) {
    EndsWith(t, tail) && PluginHead(t[..|t| - |tail|])
  }

  /** `re.match(r'^.*\.user_parsers\..*' + tail + '$', s)` succeeds */
  predicate PluginMatch(s: string, tail: string) {
    MatchesWhole(s, tail) || (|s| > 0 && s[|s| - 1] == '\n' && MatchesWhole(s[..|s| - 1], tail))
  }

  /** `re.match(r'^.*\.user_parsers\..*\.(parser|core)$', s)` succeeds */
  predicate ReinitMatch(s: string) {
    PluginMatch(s, ".parser") || PluginMatch(s, ".core")
  }

  lemma NoNewlineConcat(a: string, b: string)
    ensures NoNewline(a + b) <==> NoNewline(a) && NoNewline(b)
  {
    if NoNewline(a) && NoNewline(b) {
      forall i | 0 <= i < |a + b| ensures (a + b)[i] != '\n' {
        if i >= |a| { assert (a + b)[i] == b[i - |a|]; }
      }
    }
    if NoNewline(a + b) {
      forall i | 0 <= i < |a| ensures a[i] != '\n' {
        assert (a + b)[i] == a[i];
      }
      forall i | 0 <= i < |b| ensures b[i] != '\n' {
        assert (a + b)[|a| + i] == b[i];
      }
    }
  }

  /** Every name of the form A.user_parsers.C<tail>, with A and C free of
      newlines, matches, with or without one trailing newline. */
  lemma PluginMatchIntro(a: string, c: string, tail: string)
    requires NoNewline(a) && NoNewline(c)
    ensures PluginMatch(a + PluginSegment + c + tail, tail)
    ensures PluginMatch(a + PluginSegment + c + tail + "\n", tail)
  {
    var head := a + PluginSegment + c;
    var s := head + tail;
    assert s[..|s| - |tail|] == head;
    assert s[|s| - |tail|..] == tail;
    NoNewlineConcat(a, PluginSegment);
    NoNewlineConcat(a + PluginSegment, c);
    assert head[|a|..|a| + |PluginSegment|] == PluginSegment;
    ContainsAt(head, PluginSegment, |a|);
    assert MatchesWhole(s, tail);
    var s' := s + "\n";
    assert s'[..|s'| - 1] == s;
  }

  /** A name the pattern matches as a whole splits at the plugin segment. */
  lemma MatchesWholeElim(t: string, tail: string) returns (a: string, c: string)
    requires MatchesWhole(t, tail)
    ensures NoNewline(a) && NoNewline(c)
    ensures t == a + PluginSegment + c + tail
  {
    var head := t[..|t| - |tail|];
    assert t == head + tail;
    var i := ContainsIndex(head, PluginSegment);
    a, c := head[..i], head[i + |PluginSegment|..];
    assert head == a + PluginSegment + c;
    NoNewlineConcat(a, PluginSegment + c);
    NoNewlineConcat(PluginSegment, c);
  }

  /** Conversely, every name that matches is of that form. */
  lemma PluginMatchElim(s: string, tail: string) returns (a: string, c: string)
    requires PluginMatch(s, tail)
    ensures NoNewline(a) && NoNewline(c)
    ensures s == a + PluginSegment + c + tail || s == a + PluginSegment + c + tail + "\n"
  {
    if MatchesWhole(s, tail) {
      a, c := MatchesWholeElim(s, tail);
    } else {
      var t := s[..|s| - 1];
      a, c := MatchesWholeElim(t, tail);
      assert s == t + "\n";
    }
  }

  /** A name whose last character is neither the tail's last character nor a
      newline does not match. */
  lemma NoMatchByLastChar(s: string, tail: string)
    requires |s| > 0 && |tail| > 0
    requires s[|s| - 1] != tail[|tail| - 1] && s[|s| - 1] != '\n'
    ensures !PluginMatch(s, tail)
  {
    if |tail| <= |s| {
      assert s[|s| - |tail|..][|tail| - 1] == s[|s| - 1];
    }
  }

  /** A name that matches holds the plugin segment. */
  lemma PluginMatchContainsSegment(s: string, tail: string)
    requires PluginMatch(s, tail)
    ensures Contains(s, PluginSegment)
  {
    if MatchesWhole(s, tail) {
      WholeContainsSegment(s, tail);
    } else {
      var t := s[..|s| - 1];
      WholeContainsSegment(t, tail);
      assert s == t + "\n";
      ContainsExtend(t, "\n", PluginSegment);
    }
  }

  lemma WholeContainsSegment(t: string, tail: string)
    requires MatchesWhole(t, tail)
    ensures Contains(t, PluginSegment)
  {
    var head := t[..|t| - |tail|];
    assert t == head + tail;
    ContainsExtend(head, tail, PluginSegment);
  }
}
