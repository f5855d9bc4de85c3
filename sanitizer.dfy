/**
 * The reply normaliser and chunker of the webhook: `sanitize_plaintext`
 * and `chunk_for_messenger` (callback.php:54-68).
 */
module Sanitizer {
  import opened Php

  /** The chunk size `sendMessengerResponse` asks for, in characters. */
  const MessageLimit: nat := 1800

  predicate IsBlank(c: char) {
    c == ' ' || c == '\t'
  }

  // ---------------------------------------------------------------------
  // The normal form a sanitised text is in
  // ---------------------------------------------------------------------

  predicate NoTab(s: string) {
    forall k :: 0 <= k < |s| ==> s[k] != '\t'
  }

  predicate NoDoubleSpace(s: string) {
    forall k :: 0 <= k < |s| - 1 ==> !(s[k] == ' ' && s[k + 1] == ' ')
  }

  predicate NoTripleNewline(s: string) {
    forall k :: 0 <= k < |s| - 2 ==> !(s[k] == '\n' && s[k + 1] == '\n' && s[k + 2] == '\n')
  }

  /** No tab, no two adjacent spaces, no three adjacent newlines, nothing to trim. */
  predicate NormalForm(s: string) {
    NoTab(s) && NoDoubleSpace(s) && NoTripleNewline(s) && Trimmed(s)
  }

  /** The characters of `s` that are not trim-space, in order. */
  function Visible(s: string): string {
    if s == [] then []
    else (if IsTrimSpace(s[0]) then [] else [s[0]]) + Visible(s[1..])
  }

  // ---------------------------------------------------------------------
  // The three steps of sanitize_plaintext
  // ---------------------------------------------------------------------

  /** The suffix of `s` after its leading run of blanks. */
  function SkipBlanks(s: string): string
    decreases |s|
  {
    if s != [] && IsBlank(s[0]) then SkipBlanks(s[1..]) else s
  }

  /** Skipping blanks leaves a suffix that does not start with a blank. */
  lemma {:induction false} SkipBlanksFacts(s: string)
    ensures |SkipBlanks(s)| <= |s| && SkipBlanks(s) == s[|s| - |SkipBlanks(s)|..]
    ensures SkipBlanks(s) != [] ==> !IsBlank(SkipBlanks(s)[0])
    decreases |s|
  {
    if s != [] && IsBlank(s[0]) {
      SkipBlanksFacts(s[1..]);
    }
  }

  /** `preg_replace('/[ \t]+/u', ' ', $s)`: each maximal run of blanks becomes one space. */
  function CollapseBlanks(s: string): string
    decreases |s|
  {
    if s == [] then []
    else if IsBlank(s[0]) then
      SkipBlanksFacts(s[1..]);
      " " + CollapseBlanks(SkipBlanks(s[1..]))
    else [s[0]] + CollapseBlanks(s[1..])
  }

  /** Length of the leading run of newlines of `s`. */
  function NewlineRun(s: string): nat
    decreases |s|
  {
    if s != [] && s[0] == '\n' then 1 + NewlineRun(s[1..]) else 0
  }

  /** The leading run of newlines is exactly that: newlines up to a non-newline or the end. */
  lemma {:induction false} NewlineRunFacts(s: string)
    ensures NewlineRun(s) <= |s|
    ensures forall k :: 0 <= k < NewlineRun(s) ==> s[k] == '\n'
    ensures NewlineRun(s) < |s| ==> s[NewlineRun(s)] != '\n'
    decreases |s|
  {
    if s != [] && s[0] == '\n' {
      NewlineRunFacts(s[1..]);
      assert forall k :: 1 <= k < NewlineRun(s) ==> s[k] == s[1..][k - 1];
    }
  }

  /** `preg_replace('/\n{3,}/u', "\n\n", $s)`: each run of three or more newlines becomes two. */
  function CollapseNewlines(s: string): string
    decreases |s|
  {
    if s == [] then []
    else if s[0] != '\n' then [s[0]] + CollapseNewlines(s[1..])
    else
      NewlineRunFacts(s);
      var n := NewlineRun(s);
      (if n >= 3 then "\n\n" else s[..n]) + CollapseNewlines(s[n..])
  }

  /** `sanitize_plaintext`: a falsy string is returned as it is, anything else is
      blank-collapsed, newline-collapsed and trimmed. */
  function Sanitize(s: string): string {
    if !Truthy(s) then s
    else Trim(CollapseNewlines(CollapseBlanks(s)))
  }

  // ---------------------------------------------------------------------
  // Visible characters are preserved by every step
  // ---------------------------------------------------------------------

  lemma {:induction false} VisibleAppend(a: string, b: string)
    ensures Visible(a + b) == Visible(a) + Visible(b)
    decreases |a|
  {
    if a == [] {
      assert a + b == b;
    } else {
      assert (a + b)[1..] == a[1..] + b;
      VisibleAppend(a[1..], b);
    }
  }

  lemma {:induction false} VisibleOfSpace(s: string)
    requires AllTrimSpace(s)
    ensures Visible(s) == []
    decreases |s|
  {
    if s != [] {
      VisibleOfSpace(s[1..]);
    }
  }

  lemma {:induction false} SkipBlanksVisible(s: string)
    ensures Visible(SkipBlanks(s)) == Visible(s)
    decreases |s|
  {
    if s != [] && IsBlank(s[0]) {
      SkipBlanksVisible(s[1..]);
      assert Visible(s) == Visible(s[1..]);
    }
  }

  lemma {:induction false} CollapseBlanksVisible(s: string)
    ensures Visible(CollapseBlanks(s)) == Visible(s)
    decreases |s|
  {
    if s == [] {
    } else if IsBlank(s[0]) {
      var t := SkipBlanks(s[1..]);
      SkipBlanksFacts(s[1..]);
      CollapseBlanksVisible(t);
      SkipBlanksVisible(s[1..]);
      VisibleAppend(" ", CollapseBlanks(t));
    } else {
      CollapseBlanksVisible(s[1..]);
      VisibleAppend([s[0]], CollapseBlanks(s[1..]));
    }
  }

  lemma {:induction false} CollapseNewlinesVisible(s: string)
    ensures Visible(CollapseNewlines(s)) == Visible(s)
    decreases |s|
  {
    if s == [] {
    } else if s[0] != '\n' {
      CollapseNewlinesVisible(s[1..]);
      VisibleAppend([s[0]], CollapseNewlines(s[1..]));
    } else {
      var n := NewlineRun(s);
      NewlineRunFacts(s);
      var seg := if n >= 3 then "\n\n" else s[..n];
      CollapseNewlinesVisible(s[n..]);
      VisibleAppend(seg, CollapseNewlines(s[n..]));
      VisibleOfSpace(seg);
      assert s == s[..n] + s[n..];
      VisibleAppend(s[..n], s[n..]);
      VisibleOfSpace(s[..n]);
    }
  }

  lemma TrimVisible(s: string)
    ensures Visible(Trim(s)) == Visible(s)
  {
    TrimIsSlice(s);
    TrimStartFacts(s);
    TrimEndFacts(s);
    if Trim(s) == [] {
      VisibleOfSpace(s);
    } else {
      var i, j := TrimStart(s), TrimEnd(s);
      VisibleAppend(s[..i] + Trim(s), s[j..]);
      VisibleAppend(s[..i], Trim(s));
      VisibleOfSpace(s[..i]);
      VisibleOfSpace(s[j..]);
    }
  }

  /** Sanitising only ever removes or rewrites whitespace: the visible text is unchanged. */
  lemma SanitizeKeepsVisible(s: string)
    ensures Visible(Sanitize(s)) == Visible(s)
  {
    if Truthy(s) {
      CollapseBlanksVisible(s);
      CollapseNewlinesVisible(CollapseBlanks(s));
      TrimVisible(CollapseNewlines(CollapseBlanks(s)));
    }
  }

  // ---------------------------------------------------------------------
  // Each step establishes its part of the normal form
  // ---------------------------------------------------------------------

  lemma ConsShape(c: char, r: string)
    ensures NoTab([c] + r) <==> c != '\t' && NoTab(r)
    ensures NoDoubleSpace(r) && (c != ' ' || r == [] || r[0] != ' ') ==> NoDoubleSpace([c] + r)
    ensures NoDoubleSpace([c] + r) ==> NoDoubleSpace(r)
  {
    var s := [c] + r;
    assert forall k :: 1 <= k < |s| ==> s[k] == r[k - 1];
    assert forall k :: 0 <= k < |r| ==> r[k] == s[k + 1];
    assert s[0] == c;
    if NoDoubleSpace(r) && (c != ' ' || r == [] || r[0] != ' ') {
      forall k | 0 <= k < |s| - 1
        ensures !(s[k] == ' ' && s[k + 1] == ' ')
      {
        if k > 0 {
          assert s[k] == r[k - 1] && s[k + 1] == r[k];
        }
      }
    }
    if NoDoubleSpace(s) {
      forall k | 0 <= k < |r| - 1
        ensures !(r[k] == ' ' && r[k + 1] == ' ')
      {
        assert r[k] == s[k + 1] && r[k + 1] == s[k + 2];
      }
    }
  }

  /** After collapsing blanks there is no tab and no double space; the first
      character is kept, a leading blank becoming a space; text already free of
      tabs and double spaces is left as it is. */
  lemma {:induction false} CollapseBlanksShape(s: string)
    ensures NoTab(CollapseBlanks(s)) && NoDoubleSpace(CollapseBlanks(s))
    ensures s == [] <==> CollapseBlanks(s) == []
    ensures s != [] ==> CollapseBlanks(s)[0] == (if IsBlank(s[0]) then ' ' else s[0])
    ensures NoTab(s) && NoDoubleSpace(s) ==> CollapseBlanks(s) == s
    decreases |s|
  {
    if s == [] {
    } else if IsBlank(s[0]) {
      var t := SkipBlanks(s[1..]);
      SkipBlanksFacts(s[1..]);
      CollapseBlanksShape(t);
      ConsShape(' ', CollapseBlanks(t));
      if NoTab(s) && NoDoubleSpace(s) {
        ConsShape(s[0], s[1..]);
        assert s[1..] == [] || !IsBlank(s[1]);
        assert t == s[1..];
      }
    } else {
      CollapseBlanksShape(s[1..]);
      ConsShape(s[0], CollapseBlanks(s[1..]));
      if NoTab(s) && NoDoubleSpace(s) {
        ConsShape(s[0], s[1..]);
      }
    }
  }

  lemma SuffixShape(s: string, n: nat)
    requires n <= |s|
    ensures NoTab(s) ==> NoTab(s[n..])
    ensures NoDoubleSpace(s) ==> NoDoubleSpace(s[n..])
    ensures NoTripleNewline(s) ==> NoTripleNewline(s[n..])
  {
    var t := s[n..];
    assert forall k :: 0 <= k < |t| ==> t[k] == s[n + k];
  }

  /** A run of one or two newlines in front of text that does not start with a
      newline keeps each part of the normal form that the text has. */
  lemma NewlinesThenShape(seg: string, r: string)
    requires 1 <= |seg| <= 2 && forall k :: 0 <= k < |seg| ==> seg[k] == '\n'
    requires r == [] || r[0] != '\n'
    ensures NoTripleNewline(r) ==> NoTripleNewline(seg + r)
    ensures NoTab(r) ==> NoTab(seg + r)
    ensures NoDoubleSpace(r) ==> NoDoubleSpace(seg + r)
  {
    var s := seg + r;
    var m := |seg|;
    assert forall k :: m <= k < |s| ==> s[k] == r[k - m];
    assert forall k :: 0 <= k < m ==> s[k] == '\n';
    if NoTripleNewline(r) {
      forall k | 0 <= k < |s| - 2
        ensures !(s[k] == '\n' && s[k + 1] == '\n' && s[k + 2] == '\n')
      {
        if k >= m {
          assert s[k] == r[k - m] && s[k + 1] == r[k - m + 1] && s[k + 2] == r[k - m + 2];
        } else if k + 1 == m {
          assert s[k + 1] == r[0];
        } else {
          assert k == 0 && m == 2 && s[2] == r[0];
        }
      }
    }
    if NoDoubleSpace(r) {
      forall k | 0 <= k < |s| - 1
        ensures !(s[k] == ' ' && s[k + 1] == ' ')
      {
        if k >= m {
          assert s[k] == r[k - m] && s[k + 1] == r[k - m + 1];
        }
      }
    }
  }

  lemma ConsNoTriple(c: char, r: string)
    requires c != '\n'
    ensures NoTripleNewline(r) ==> NoTripleNewline([c] + r)
  {
    var s := [c] + r;
    assert forall k :: 1 <= k < |s| ==> s[k] == r[k - 1];
    if NoTripleNewline(r) {
      forall k | 0 <= k < |s| - 2
        ensures !(s[k] == '\n' && s[k + 1] == '\n' && s[k + 2] == '\n')
      {
        if k > 0 {
          assert s[k] == r[k - 1] && s[k + 1] == r[k] && s[k + 2] == r[k + 1];
        }
      }
    }
  }

  lemma CollapseNewlinesHead(s: string)
    ensures s == [] <==> CollapseNewlines(s) == []
    ensures s != [] ==> CollapseNewlines(s)[0] == s[0]
  {
    NewlineRunFacts(s);
  }

  /** After collapsing newlines there is no run of three. */
  lemma {:induction false} CollapseNewlinesNoTriple(s: string)
    ensures NoTripleNewline(CollapseNewlines(s))
    decreases |s|
  {
    if s == [] {
    } else if s[0] != '\n' {
      CollapseNewlinesNoTriple(s[1..]);
      ConsNoTriple(s[0], CollapseNewlines(s[1..]));
    } else {
      var n := NewlineRun(s);
      NewlineRunFacts(s);
      var seg := if n >= 3 then "\n\n" else s[..n];
      CollapseNewlinesNoTriple(s[n..]);
      CollapseNewlinesHead(s[n..]);
      NewlinesThenShape(seg, CollapseNewlines(s[n..]));
    }
  }

  /** Collapsing newlines creates neither a tab nor a double space. */
  lemma {:induction false} CollapseNewlinesKeeps(s: string)
    ensures NoTab(s) ==> NoTab(CollapseNewlines(s))
    ensures NoDoubleSpace(s) ==> NoDoubleSpace(CollapseNewlines(s))
    decreases |s|
  {
    if s == [] {
    } else if s[0] != '\n' {
      var r := CollapseNewlines(s[1..]);
      CollapseNewlinesKeeps(s[1..]);
      CollapseNewlinesHead(s[1..]);
      SuffixShape(s, 1);
      ConsShape(s[0], r);
      ConsShape(s[0], s[1..]);
    } else {
      var n := NewlineRun(s);
      NewlineRunFacts(s);
      var seg := if n >= 3 then "\n\n" else s[..n];
      CollapseNewlinesKeeps(s[n..]);
      CollapseNewlinesHead(s[n..]);
      SuffixShape(s, n);
      NewlinesThenShape(seg, CollapseNewlines(s[n..]));
    }
  }

  /** Text without a run of three newlines is left as it is. */
  lemma {:induction false} CollapseNewlinesFixed(s: string)
    requires NoTripleNewline(s)
    ensures CollapseNewlines(s) == s
    decreases |s|
  {
    if s == [] {
    } else if s[0] != '\n' {
      SuffixShape(s, 1);
      CollapseNewlinesFixed(s[1..]);
    } else {
      var n := NewlineRun(s);
      NewlineRunFacts(s);
      if |s| > 2 {
        assert !(s[0] == '\n' && s[1] == '\n' && s[2] == '\n');
      }
      assert n < 3;
      SuffixShape(s, n);
      CollapseNewlinesFixed(s[n..]);
      assert s == s[..n] + s[n..];
    }
  }

  lemma SliceShape(s: string, i: nat, j: nat)
    requires i <= j <= |s|
    ensures NoTab(s) ==> NoTab(s[i..j])
    ensures NoDoubleSpace(s) ==> NoDoubleSpace(s[i..j])
    ensures NoTripleNewline(s) ==> NoTripleNewline(s[i..j])
  {
    var t := s[i..j];
    assert forall k :: 0 <= k < |t| ==> t[k] == s[i + k];
  }

  lemma TrimShape(s: string)
    ensures NoTab(s) ==> NoTab(Trim(s))
    ensures NoDoubleSpace(s) ==> NoDoubleSpace(Trim(s))
    ensures NoTripleNewline(s) ==> NoTripleNewline(Trim(s))
  {
    TrimIsSlice(s);
    if Trim(s) != [] {
      SliceShape(s, TrimStart(s), TrimEnd(s));
    }
  }

  // ---------------------------------------------------------------------
  // What sanitize_plaintext promises
  // ---------------------------------------------------------------------

  /** A sanitised text has no tab, no two adjacent spaces, no run of three
      newlines, and nothing `trim` would strip at either end. */
  lemma SanitizeNormalForm(s: string)
    ensures NormalForm(Sanitize(s))
  {
    if Truthy(s) {
      var b := CollapseBlanks(s);
      var n := CollapseNewlines(b);
      CollapseBlanksShape(s);
      CollapseNewlinesNoTriple(b);
      CollapseNewlinesKeeps(b);
      TrimShape(n);
      TrimFacts(n);
    } else {
      assert s == [] || s == "0";
    }
  }

  /** Sanitize leaves a text unchanged exactly when it is already in normal form. */
  lemma SanitizeFixedIff(s: string)
    ensures Sanitize(s) == s <==> NormalForm(s)
  {
    SanitizeNormalForm(s);
    if NormalForm(s) && Truthy(s) {
      CollapseBlanksShape(s);
      CollapseNewlinesFixed(s);
      TrimFacts(s);
    }
  }

  /** Sanitising twice is the same as sanitising once. */
  lemma SanitizeIdempotent(s: string)
    ensures Sanitize(Sanitize(s)) == Sanitize(s)
  {
    SanitizeNormalForm(s);
    SanitizeFixedIff(Sanitize(s));
  }

  lemma {:induction false} CollapseShrinks(s: string)
    ensures |CollapseBlanks(s)| <= |s| && |CollapseNewlines(s)| <= |s|
    decreases |s|
  {
    if s != [] {
      CollapseShrinks(s[1..]);
      if IsBlank(s[0]) {
        SkipBlanksFacts(s[1..]);
        CollapseShrinks(SkipBlanks(s[1..]));
      }
      if s[0] == '\n' {
        NewlineRunFacts(s);
        CollapseShrinks(s[NewlineRun(s)..]);
      }
    }
  }

  /** Sanitising never lengthens a text, and keeps it non-empty when it has a
      visible character. */
  lemma SanitizeSize(s: string)
    ensures |Sanitize(s)| <= |s|
    ensures Visible(s) != [] ==> Sanitize(s) != []
  {
    CollapseShrinks(s);
    CollapseShrinks(CollapseBlanks(s));
    TrimFacts(CollapseNewlines(CollapseBlanks(s)));
    SanitizeKeepsVisible(s);
  }

  predicate NoNewline(s: string) {
    forall k :: 0 <= k < |s| ==> s[k] != '\n'
  }

  /** Two one-line texts in normal form, joined by one space, are again a
      one-line text in normal form. */
  lemma JoinWithSpace(a: string, b: string)
    requires a != [] && b != []
    requires NormalForm(a) && NormalForm(b) && NoNewline(a) && NoNewline(b)
    ensures NormalForm(a + " " + b) && NoNewline(a + " " + b)
  {
    var s := a + " " + b;
    var m := |a| + 1;
    assert forall k :: 0 <= k < |a| ==> s[k] == a[k];
    assert s[|a|] == ' ';
    assert forall k :: m <= k < |s| ==> s[k] == b[k - m];
    forall k | 0 <= k < |s| - 1
      ensures !(s[k] == ' ' && s[k + 1] == ' ')
    {
      if k + 1 < |a| {
        assert s[k] == a[k] && s[k + 1] == a[k + 1];
      } else if k >= m {
        assert s[k] == b[k - m] && s[k + 1] == b[k - m + 1];
      }
    }
  }

  // ---------------------------------------------------------------------
  // chunk_for_messenger
  // ---------------------------------------------------------------------

  /** The pieces joined back together, in order. */
  function Concat(cs: seq<string>): string {
    if cs == [] then [] else cs[0] + Concat(cs[1..])
  }

  lemma {:induction false} ConcatAppend(a: seq<string>, b: seq<string>)
    ensures Concat(a + b) == Concat(a) + Concat(b)
    decreases |a|
  {
    if a == [] {
      assert a + b == b;
    } else {
      assert (a + b)[1..] == a[1..] + b;
      ConcatAppend(a[1..], b);
    }
  }

  /** The pieces `chunk_for_messenger` cuts an already sanitised text into: the
      text itself when it fits, otherwise consecutive pieces of exactly `limit`
      characters followed by a non-empty remainder of at most `limit`. */
  function Chunks(t: string, limit: nat): seq<string>
    requires limit > 0
    decreases |t|
  {
    if |t| <= limit then [t]
    else [t[..limit]] + Chunks(t[limit..], limit)
  }

  /** There is at least one piece; none is longer than `limit`; all but the
      last are exactly `limit` long; a text that fits is its own single piece;
      a text that does not fit has no empty piece. */
  lemma {:induction false} ChunksFacts(t: string, limit: nat)
    requires limit > 0
    ensures |Chunks(t, limit)| >= 1
    ensures forall i :: 0 <= i < |Chunks(t, limit)| ==> |Chunks(t, limit)[i]| <= limit
    ensures forall i :: 0 <= i < |Chunks(t, limit)| - 1 ==> |Chunks(t, limit)[i]| == limit
    ensures |t| <= limit ==> Chunks(t, limit) == [t]
    ensures |t| > limit ==> forall i :: 0 <= i < |Chunks(t, limit)| ==> Chunks(t, limit)[i] != []
    ensures |Chunks(t, limit)| == 1 ==> Chunks(t, limit)[0] == t
    decreases |t|
  {
    if |t| > limit {
      var rest := Chunks(t[limit..], limit);
      ChunksFacts(t[limit..], limit);
      assert Chunks(t, limit) == [t[..limit]] + rest;
      assert forall i :: 1 <= i < |Chunks(t, limit)| ==> Chunks(t, limit)[i] == rest[i - 1];
    }
  }

  /** The chunks of what is left from position `i` on: one piece of at most
      `limit` characters, then the chunks of the rest. */
  lemma ChunksFrom(t: string, i: nat, limit: nat)
    requires limit > 0 && i < |t|
    ensures i + limit < |t| ==> Chunks(t[i..], limit) == [t[i..i + limit]] + Chunks(t[i + limit..], limit)
    ensures i + limit >= |t| ==> Chunks(t[i..], limit) == [t[i..]]
  {
    if i + limit < |t| {
      assert t[i..][..limit] == t[i..i + limit] && t[i..][limit..] == t[i + limit..];
    }
  }

  /** Concatenating the chunks gives back exactly the text that was cut. */
  lemma {:induction false} ChunksConcat(t: string, limit: nat)
    requires limit > 0
    ensures Concat(Chunks(t, limit)) == t
    decreases |t|
  {
    if |t| > limit {
      ChunksConcat(t[limit..], limit);
      assert t == t[..limit] + t[limit..];
    }
  }

  /** `chunk_for_messenger($text, $limit)`: sanitise, then cut by character count. */
  method ChunkForMessenger(text: string, limit: nat) returns (out: seq<string>)
    requires limit > 0
    ensures out == Chunks(Sanitize(text), limit)
  {
    var t := Sanitize(text);
    out := Cut(t, limit);
  }

  /** The cutting loop of `chunk_for_messenger` on the sanitised text. */
  method Cut(t: string, limit: nat) returns (out: seq<string>)
    requires limit > 0
    ensures out == Chunks(t, limit)
  {
    if |t| <= limit {
      return [t];
    }
    out := [];
    var i := 0;
    var n := |t|;
    while i < n
      invariant i < n ==> out + Chunks(t[i..], limit) == Chunks(t, limit)
      invariant i >= n ==> out == Chunks(t, limit)
      decreases n - i
    {
      var piece := t[i..if i + limit < n then i + limit else n];
      ChunksFrom(t, i, limit);
      if i + limit < n {
        assert (out + [piece]) + Chunks(t[i + limit..], limit) == out + Chunks(t[i..], limit);
      } else {
        assert piece == t[i..];
      }
      out := out + [piece];
      i := i + limit;
    }
  }
}
