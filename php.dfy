/**
 * The few PHP string semantics the webhook relies on: truthiness of strings
 * and byte strings, and the built-in `trim`.
 */
module Php {
  import opened Wrappers

  newtype byte = x: int | 0 <= x < 256

  /** A PHP string is falsy exactly when it is "" or "0". */
  predicate Truthy(s: string) {
    s != "" && s != "0"
  }

  /** `if ($x)` on a value that is either missing (null) or a string. */
  predicate Present(o: Option<string>) {
    o.Some? && Truthy(o.value)
  }

  /** Truthiness of a byte string: falsy when empty or the single byte '0'. */
  predicate TruthyBytes(b: seq<byte>) {
    b != [] && b != [0x30]
  }

  /** The characters PHP's `trim` strips by default: " \t\n\r\0\x0B". */
  predicate IsTrimSpace(c: char) {
    c == ' ' || c == '\t' || c == '\n' || c == '\r' || c == '\0' || c == '\U{B}'
  }

  predicate AllTrimSpace(s: string) {
    forall k :: 0 <= k < |s| ==> IsTrimSpace(s[k])
  }

  /** Neither end of `s` is a character `trim` would strip. */
  predicate Trimmed(s: string) {
    s == [] || (!IsTrimSpace(s[0]) && !IsTrimSpace(s[|s| - 1]))
  }

  /** Index of the first character `trim` keeps (|s| when there is none). */
  function TrimStart(s: string): nat
    decreases |s|
  {
    if s != [] && IsTrimSpace(s[0]) then 1 + TrimStart(s[1..]) else 0
  }

  /** One past the last character `trim` keeps (0 when there is none). */
  function TrimEnd(s: string): nat
    decreases |s|
  {
    if s != [] && IsTrimSpace(s[|s| - 1]) then TrimEnd(s[..|s| - 1]) else |s|
  }

  /** Everything before `TrimStart(s)` is trim-space, and the character there is not. */
  lemma {:induction false} TrimStartFacts(s: string)
    ensures TrimStart(s) <= |s|
    ensures AllTrimSpace(s[..TrimStart(s)])
    ensures TrimStart(s) < |s| ==> !IsTrimSpace(s[TrimStart(s)])
    decreases |s|
  {
    if s != [] && IsTrimSpace(s[0]) {
      TrimStartFacts(s[1..]);
      var i := TrimStart(s);
      assert s[..i] == [s[0]] + s[1..][..i - 1];
    }
  }

  /** Everything from `TrimEnd(s)` on is trim-space, and the character before it is not. */
  lemma {:induction false} TrimEndFacts(s: string)
    ensures TrimEnd(s) <= |s|
    ensures AllTrimSpace(s[TrimEnd(s)..])
    ensures TrimEnd(s) > 0 ==> !IsTrimSpace(s[TrimEnd(s) - 1])
    decreases |s|
  {
    if s != [] && IsTrimSpace(s[|s| - 1]) {
      TrimEndFacts(s[..|s| - 1]);
      var j := TrimEnd(s);
      assert s[j..] == s[..|s| - 1][j..] + [s[|s| - 1]];
    }
  }

  /** When `trim` keeps anything, the kept part starts before it ends. */
  lemma TrimBounds(s: string)
    ensures TrimStart(s) <= |s| && TrimEnd(s) <= |s|
    ensures TrimStart(s) < |s| ==> TrimStart(s) < TrimEnd(s)
  {
    TrimStartFacts(s);
    TrimEndFacts(s);
  }

  /** PHP `trim($s)`: drop the default whitespace from both ends. */
  function Trim(s: string): string {
    TrimBounds(s);
    if TrimStart(s) == |s| then []
    else s[TrimStart(s)..TrimEnd(s)]
  }

  /** `trim` leaves nothing to strip, changes a text with nothing to strip not
      at all, and never lengthens. */
  lemma TrimFacts(s: string)
    ensures Trimmed(Trim(s))
    ensures Trimmed(s) ==> Trim(s) == s
    ensures |Trim(s)| <= |s|
  {
    TrimStartFacts(s);
    TrimEndFacts(s);
    TrimBounds(s);
    if Trimmed(s) && s != [] {
      assert TrimStart(s) == 0 && TrimEnd(s) == |s|;
    }
  }

  /** `trim` returns the empty string exactly for an all-whitespace string. */
  lemma TrimEmptyIff(s: string)
    ensures Trim(s) == [] <==> AllTrimSpace(s)
  {
    TrimBounds(s);
    TrimStartFacts(s);
    var i := TrimStart(s);
    if i == |s| {
      assert s[..i] == s;
    } else {
      assert !IsTrimSpace(s[i]);
      assert |Trim(s)| == TrimEnd(s) - i > 0;
    }
  }

  /** When something is kept, it is the middle piece between the stripped
      prefix and the stripped suffix. */
  lemma TrimMiddle(s: string)
    requires TrimStart(s) < |s|
    ensures TrimStart(s) < TrimEnd(s) <= |s|
    ensures Trim(s) == s[TrimStart(s)..TrimEnd(s)]
    ensures s == s[..TrimStart(s)] + Trim(s) + s[TrimEnd(s)..]
  {
    TrimBounds(s);
    SplitThree(s, TrimStart(s), TrimEnd(s));
  }

  /** Trim keeps one contiguous slice of its input and drops only trim-space around it. */
  lemma TrimIsSlice(s: string)
    ensures Trim(s) == [] <==> AllTrimSpace(s)
    ensures Trim(s) != [] ==>
      TrimStart(s) < TrimEnd(s) <= |s| &&
      Trim(s) == s[TrimStart(s)..TrimEnd(s)] &&
      s == s[..TrimStart(s)] + Trim(s) + s[TrimEnd(s)..]
  {
    TrimBounds(s);
    TrimEmptyIff(s);
    if TrimStart(s) < |s| {
      TrimMiddle(s);
    }
  }

  lemma SplitThree(s: string, i: nat, j: nat)
    requires i <= j <= |s|
    ensures s == s[..i] + s[i..j] + s[j..]
  {
    assert s[..j] == s[..i] + s[i..j];
  }
}
