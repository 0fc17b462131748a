/** The optional value used for JavaScript's `undefined` and Firestore's "no document". */
module Wrappers {
  datatype Option<+T> = None | Some(value: T)
}

/**
 * The few pieces of JavaScript semantics the middleware relies on:
 * truthiness and `||` on values, and `String.prototype.indexOf`,
 * `String.prototype.split` and `Array.prototype.join` for a string separator.
 */
module JsSemantics {
  import opened Wrappers

  /**
   * A JavaScript value as far as a custom claim or a document field can be one.
   * `Structured` stands for any object or array (always truthy).
   */
  datatype JsValue = Undefined | Null | Bool(b: bool) | Num(n: real) | Str(s: string) | Structured
  {
    /** ECMAScript ToBoolean. */
    predicate Truthy() {
      match this
      case Undefined => false
      case Null => false
      case Bool(b) => b
      case Num(n) => n != 0.0
      case Str(s) => s != ""
      case Structured => true
    }
  }

  /** The JavaScript expression `a || b`: the left operand when it is truthy, else the right one. */
  function Or(a: JsValue, b: JsValue): (r: JsValue)
    ensures r.Truthy() <==> a.Truthy() || b.Truthy()
    ensures r == a || r == b
    ensures a.Truthy() ==> r == a
    ensures !a.Truthy() ==> r == b
  {
    if a.Truthy() then a else b
  }

  /** `pat` occurs in `s` starting at index `k`. */
  predicate MatchAt(s: string, pat: string, k: nat) {
    k + |pat| <= |s| && s[k..k + |pat|] == pat
  }

  /** `s` contains `pat` somewhere. */
  predicate Contains(s: string, pat: string) {
    exists k :: 0 <= k <= |s| && MatchAt(s, pat, k)
  }

  /**
   * `s.indexOf(pat, from)` for a non-empty `pat` (the only kind searched for here):
   * the leftmost occurrence of `pat` at or after `from`, if any. JavaScript clamps
   * `from` to `|s|`, which this leaves out; it matters only for an empty `pat`.
   */
  function IndexOf(s: string, pat: string, from: nat): (r: Option<nat>)
    decreases |s| - from
    ensures r.Some? ==> from <= r.value && MatchAt(s, pat, r.value)
    ensures forall k :: from <= k && (r.None? || k < r.value) ==> !MatchAt(s, pat, k)
  {
    if from + |pat| > |s| then None
    else if s[from..from + |pat|] == pat then Some(from)
    else IndexOf(s, pat, from + 1)
  }

  /** IndexOf finds exactly the first occurrence at or after `from`. */
  lemma IndexOfFirst(s: string, pat: string, from: nat, k: nat)
    requires from <= k && MatchAt(s, pat, k)
    requires forall j :: from <= j < k ==> !MatchAt(s, pat, j)
    ensures IndexOf(s, pat, from) == Some(k)
  {
  }

  /**
   * The pieces of `s[from..]` that `s.split(sep)` yields once it has got to `from`:
   * the text up to the next occurrence of `sep`, then the rest split again after it.
   */
  function SplitFrom(s: string, sep: string, from: nat): (parts: seq<string>)
    requires 0 < |sep| && from <= |s|
    decreases |s| - from
    ensures 1 <= |parts|
  {
    match IndexOf(s, sep, from)
    case None => [s[from..]]
    case Some(j) => [s[from..j]] + SplitFrom(s, sep, j + |sep|)
  }

  /** `s.split(sep)` for a non-empty string separator and no limit. */
  function Split(s: string, sep: string): (parts: seq<string>)
    requires 0 < |sep|
    ensures 1 <= |parts|
  {
    SplitFrom(s, sep, 0)
  }

  /** `parts.join(sep)`. */
  function Join(parts: seq<string>, sep: string): string {
    if |parts| == 0 then ""
    else if |parts| == 1 then parts[0]
    else parts[0] + sep + Join(parts[1..], sep)
  }

  /** Joining the pieces with the separator gives back the split text. */
  lemma {:induction false} SplitFromJoin(s: string, sep: string, from: nat)
    requires 0 < |sep| && from <= |s|
    decreases |s| - from
    ensures Join(SplitFrom(s, sep, from), sep) == s[from..]
  {
    match IndexOf(s, sep, from)
    case None =>
    case Some(j) =>
      var rest := SplitFrom(s, sep, j + |sep|);
      SplitFromJoin(s, sep, j + |sep|);
      var parts := SplitFrom(s, sep, from);
      assert parts == [s[from..j]] + rest;
      assert parts[1..] == rest;
      assert s[j..j + |sep|] == sep;
      calc {
        Join(parts, sep);
        s[from..j] + sep + Join(rest, sep);
        s[from..j] + s[j..j + |sep|] + s[j + |sep|..];
        { assert s[from..] == s[from..j] + s[j..j + |sep|] + s[j + |sep|..]; }
        s[from..];
      }
  }

  lemma SplitJoin(s: string, sep: string)
    requires 0 < |sep|
    ensures Join(Split(s, sep), sep) == s
  {
    SplitFromJoin(s, sep, 0);
  }

  /** An occurrence inside a slice is an occurrence in the whole string. */
  lemma MatchInSlice(s: string, pat: string, lo: nat, hi: nat, k: nat)
    requires lo <= hi <= |s| && MatchAt(s[lo..hi], pat, k)
    ensures MatchAt(s, pat, lo + k) && lo + k + |pat| <= hi
  {
    assert k + |pat| <= hi - lo;
    var inSlice, inWhole := s[lo..hi][k..k + |pat|], s[lo + k..lo + k + |pat|];
    forall i | 0 <= i < |pat| ensures inSlice[i] == inWhole[i] {
      assert inSlice[i] == s[lo + k + i];
    }
    assert inSlice == inWhole;
  }

  /** No piece of a split contains the separator. */
  lemma {:induction false} SplitFromPiecesFree(s: string, sep: string, from: nat, i: nat)
    requires 0 < |sep| && from <= |s|
    requires i < |SplitFrom(s, sep, from)|
    decreases |s| - from
    ensures !Contains(SplitFrom(s, sep, from)[i], sep)
  {
    var parts := SplitFrom(s, sep, from);
    match IndexOf(s, sep, from)
    case None =>
      if Contains(parts[0], sep) {
        var k :| MatchAt(parts[0], sep, k);
        assert parts[0] == s[from..|s|];
        MatchInSlice(s, sep, from, |s|, k);
      }
    case Some(j) =>
      if i == 0 {
        if Contains(parts[0], sep) {
          var k :| MatchAt(parts[0], sep, k);
          MatchInSlice(s, sep, from, j, k);
        }
      } else {
        SplitFromPiecesFree(s, sep, j + |sep|, i - 1);
        assert parts[i] == SplitFrom(s, sep, j + |sep|)[i - 1];
      }
  }

  lemma SplitPiecesFree(s: string, sep: string, i: nat)
    requires 0 < |sep| && i < |Split(s, sep)|
    ensures !Contains(Split(s, sep)[i], sep)
  {
    SplitFromPiecesFree(s, sep, 0, i);
  }

  /** With no occurrence of the separator, split yields the whole text as its only piece. */
  lemma SplitNoSeparator(s: string, sep: string)
    requires 0 < |sep| && !Contains(s, sep)
    ensures Split(s, sep) == [s]
  {
  }

  /**
   * The second piece of a split is the text between the first occurrence `k` of the
   * separator and the next one `e` (or the end of the text).
   */
  lemma SplitSecondPiece(s: string, sep: string, k: nat, e: nat)
    requires 0 < |sep|
    requires MatchAt(s, sep, k) && forall j :: 0 <= j < k ==> !MatchAt(s, sep, j)
    requires k + |sep| <= e <= |s| && (e == |s| || MatchAt(s, sep, e))
    requires forall j :: k + |sep| <= j < e ==> !MatchAt(s, sep, j)
    ensures 2 <= |Split(s, sep)| && Split(s, sep)[1] == s[k + |sep|..e]
  {
    IndexOfFirst(s, sep, 0, k);
    var rest := SplitFrom(s, sep, k + |sep|);
    assert Split(s, sep) == [s[..k]] + rest;
    if MatchAt(s, sep, e) {
      IndexOfFirst(s, sep, k + |sep|, e);
    }
  }
}
