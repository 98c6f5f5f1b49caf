/** Splitting a C string the way repeated `strtok` calls do: the text is cut
    at every separator character and empty pieces are dropped. Both programs
    use it: projeto2.c splits paths on '/', projeto1.c splits the current
    directory on '/' and the command line on ' '. */
module Tokens {

  /** A piece `strtok` can return: non-empty and free of the separator. */
  predicate IsToken(t: string, sep: char) {
    |t| > 0 && sep !in t
  }

  /** The text with every separator removed. */
  function Strip(s: string, sep: char): (r: string)
    ensures sep !in r
    ensures |r| <= |s|
  {
    if |s| == 0 then ""
    else if s[0] == sep then Strip(s[1..], sep)
    else [s[0]] + Strip(s[1..], sep)
  }

  /** The pieces written one after the other. */
  function Flatten(ts: seq<string>): string {
    if |ts| == 0 then "" else ts[0] + Flatten(ts[1..])
  }

  /** The pieces written each behind a separator: "/a/b" for ["a", "b"]. */
  function Join(ts: seq<string>, sep: char): string {
    if |ts| == 0 then "" else [sep] + ts[0] + Join(ts[1..], sep)
  }

  /** Length of the run of non-separator characters at the start of `s`. */
  function TokenEnd(s: string, sep: char): (k: nat)
    ensures k <= |s|
    ensures forall i :: 0 <= i < k ==> s[i] != sep
    ensures k < |s| ==> s[k] == sep
  {
    if |s| == 0 || s[0] == sep then 0 else 1 + TokenEnd(s[1..], sep)
  }

  /** Every token `strtok(s, sep)` followed by `strtok(NULL, sep)` calls
      would return, in order. */
  function Tokenize(s: string, sep: char): (r: seq<string>)
    ensures forall i :: 0 <= i < |r| ==> IsToken(r[i], sep)
    ensures Flatten(r) == Strip(s, sep)
    decreases |s|
  {
    if |s| == 0 then []
    else if s[0] == sep then Tokenize(s[1..], sep)
    else
      var k := TokenEnd(s, sep);
      StripRun(s, k, sep);
      [s[..k]] + Tokenize(s[k..], sep)
  }

  /** Stripping a text whose first `k` characters are not separators keeps
      those characters as they are. */
  lemma {:induction false} StripRun(s: string, k: nat, sep: char)
    requires k <= |s|
    requires forall i :: 0 <= i < k ==> s[i] != sep
    ensures Strip(s, sep) == s[..k] + Strip(s[k..], sep)
  {
    if k > 0 {
      StripRun(s[1..], k - 1, sep);
      assert s[1..][..k - 1] == s[1..k];
      assert s[1..][k - 1..] == s[k..];
      assert s[..k] == [s[0]] + s[1..k];
    }
  }

  /** A token followed by a separated remainder ends where the remainder starts. */
  lemma {:induction false} TokenEndOfJoin(t: string, rest: seq<string>, sep: char)
    requires IsToken(t, sep)
    ensures TokenEnd(t + Join(rest, sep), sep) == |t|
  {
    var s := t + Join(rest, sep);
    TokenEndAt(s, |t|, sep);
  }

  /** `TokenEnd` is the first separator position: a run of non-separators
      up to `k` that is followed by a separator or the end fixes it. */
  lemma {:induction false} TokenEndAt(s: string, k: nat, sep: char)
    requires k <= |s|
    requires forall i :: 0 <= i < k ==> s[i] != sep
    requires k < |s| ==> s[k] == sep
    ensures TokenEnd(s, sep) == k
  {
    if k > 0 {
      TokenEndAt(s[1..], k - 1, sep);
    }
  }

  /** Splitting what `Join` wrote gives back the pieces: no piece is lost,
      merged or split, so the separated form is a faithful encoding. */
  lemma {:induction false} TokenizeJoin(ts: seq<string>, sep: char)
    requires forall i :: 0 <= i < |ts| ==> IsToken(ts[i], sep)
    ensures Tokenize(Join(ts, sep), sep) == ts
  {
    if |ts| > 0 {
      var s := Join(ts, sep);
      var tail := ts[0] + Join(ts[1..], sep);
      assert s == [sep] + tail;
      assert s[1..] == tail;
      TokenEndOfJoin(ts[0], ts[1..], sep);
      assert tail[..|ts[0]|] == ts[0];
      assert tail[|ts[0]|..] == Join(ts[1..], sep);
      TokenizeJoin(ts[1..], sep);
      assert Tokenize(tail, sep) == [ts[0]] + ts[1..];
    }
  }

  /** A leading separator gives no empty token. */
  lemma {:induction false} TokenizeSkipsSeparators(s: string, sep: char)
    ensures Tokenize([sep] + s, sep) == Tokenize(s, sep)
  {
    assert ([sep] + s)[1..] == s;
  }

  /** A text without separators is one token. */
  lemma TokenizeToken(t: string, sep: char)
    requires IsToken(t, sep)
    ensures Tokenize(t, sep) == [t]
  {
    TokenEndAt(t, |t|, sep);
    assert t[..|t|] == t;
    assert t[|t|..] == [];
  }

  /** Every separator splits: the tokens of `a`, a separator and `b` are the
      tokens of `a` followed by those of `b`. With `TokenizeToken` this
      fixes the tokens of every text, so doubled and trailing separators
      give no empty token either. */
  lemma {:induction false} TokenizeSplit(a: string, b: string, sep: char)
    ensures Tokenize(a + [sep] + b, sep) == Tokenize(a, sep) + Tokenize(b, sep)
    decreases |a|
  {
    var s := a + [sep] + b;
    if |a| == 0 {
      assert s == [sep] + b;
      TokenizeSkipsSeparators(b, sep);
    } else if a[0] == sep {
      assert s[1..] == a[1..] + [sep] + b;
      TokenizeSplit(a[1..], b, sep);
    } else {
      var k := TokenEnd(a, sep);
      assert forall i :: 0 <= i < k ==> s[i] == a[i];
      assert s[k] == sep;
      TokenEndAt(s, k, sep);
      assert s[..k] == a[..k];
      assert s[k..] == a[k..] + [sep] + b;
      TokenizeSplit(a[k..], b, sep);
    }
  }
}
