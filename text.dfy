/**
 * The JavaScript and Node.js string and path operations the install engine
 * relies on: `startsWith`, `replace` with a string pattern (first occurrence),
 * `replace` with a global pattern (every occurrence), `join`, the word
 * splitting a shell applies to a command line, and `path.dirname` /
 * `path.resolve` restricted to relative, well-formed paths.
 */
module Text {
  import opened Wrappers

  /** `s.startsWith(p)`. */
  predicate StartsWith(s: string, p: string) {
    |p| <= |s| && s[..|p|] == p
  }

  lemma StartsWithConcat(p: string, rest: string)
    ensures StartsWith(p + rest, p)
  {
    assert (p + rest)[..|p|] == p;
  }

  /** `p` occurs in `s` at index `i`. */
  predicate OccursAt(s: string, p: string, i: nat) {
    i + |p| <= |s| && s[i..i + |p|] == p
  }

  lemma OccursAtTail(s: string, p: string, j: nat)
    requires |s| > 0
    ensures OccursAt(s, p, j + 1) <==> OccursAt(s[1..], p, j)
  {
    if j + 1 + |p| <= |s| {
      assert s[j + 1..j + 1 + |p|] == s[1..][j..j + |p|];
    }
  }

  /** `String.prototype.indexOf`: the first index at which `p` occurs. */
  function IndexOf(s: string, p: string): (r: Option<nat>)
    ensures r.Some? ==> OccursAt(s, p, r.value)
    ensures r.Some? ==> forall j: nat :: j < r.value ==> !OccursAt(s, p, j)
    ensures r.None? ==> forall j: nat :: !OccursAt(s, p, j)
    decreases |s|
  {
    if StartsWith(s, p) then
      Some(0)
    else if |s| == 0 then
      None
    else
      match IndexOf(s[1..], p)
      case None =>
        assert forall j: nat :: !OccursAt(s, p, j) by {
          forall j: nat ensures !OccursAt(s, p, j) {
            if j > 0 { OccursAtTail(s, p, j - 1); }
          }
        }
        None
      case Some(i) =>
        OccursAtTail(s, p, i);
        assert forall j: nat :: j < i + 1 ==> !OccursAt(s, p, j) by {
          forall j: nat | j < i + 1 ensures !OccursAt(s, p, j) {
            if j > 0 { OccursAtTail(s, p, j - 1); }
          }
        }
        Some(i + 1)
  }

  /** `p` first occurs in `s` at index `i`. */
  predicate FirstAt(s: string, p: string, i: nat) {
    OccursAt(s, p, i) && forall j: nat :: j < i ==> !OccursAt(s, p, j)
  }

  /** `s.replace(p, r)` with a string pattern: only the first occurrence, wherever it is. */
  function ReplaceFirst(s: string, p: string, r: string): (t: string)
    ensures forall i: nat :: FirstAt(s, p, i) ==> t == s[..i] + r + s[i + |p|..]
    ensures (forall j: nat :: !OccursAt(s, p, j)) ==> t == s
  {
    match IndexOf(s, p)
    case None => s
    case Some(i) => s[..i] + r + s[i + |p|..]
  }

  /** Replacing the first occurrence of a prefix by nothing strips the prefix. */
  lemma StripPrefix(s: string, p: string)
    requires StartsWith(s, p)
    ensures ReplaceFirst(s, p, "") == s[|p|..]
  {
    assert OccursAt(s, p, 0);
    var i := IndexOf(s, p).value;
    assert i == 0;
  }

  /**
   * `s.replace(/p/g, r)`: every non-overlapping occurrence, scanning left to
   * right and resuming after each match.
   */
  function ReplaceAll(s: string, p: string, r: string): string
    requires p != []
    decreases |s|
  {
    if |s| < |p| then s
    else if s[..|p|] == p then r + ReplaceAll(s[|p|..], p, r)
    else [s[0]] + ReplaceAll(s[1..], p, r)
  }

  /** Replacing a token by itself changes nothing. */
  lemma {:induction false} ReplaceAllSelf(s: string, p: string)
    requires p != []
    ensures ReplaceAll(s, p, p) == s
    decreases |s|
  {
    if |s| < |p| {
    } else if s[..|p|] == p {
      ReplaceAllSelf(s[|p|..], p);
      assert s == s[..|p|] + s[|p|..];
    } else {
      ReplaceAllSelf(s[1..], p);
      assert s == [s[0]] + s[1..];
    }
  }

  /** Text in which the token does not occur is left untouched. */
  lemma {:induction false} ReplaceAllAbsent(s: string, p: string, r: string)
    requires p != []
    requires forall j: nat :: !OccursAt(s, p, j)
    ensures ReplaceAll(s, p, r) == s
    decreases |s|
  {
    if |s| < |p| {
    } else {
      assert !OccursAt(s, p, 0);
      forall j: nat ensures !OccursAt(s[1..], p, j) {
        OccursAtTail(s, p, j);
      }
      ReplaceAllAbsent(s[1..], p, r);
      assert s == [s[0]] + s[1..];
    }
  }

  /** Text concatenated after a leading occurrence is rewritten piecewise. */
  lemma ReplaceAllLeading(p: string, r: string, rest: string)
    requires p != []
    ensures ReplaceAll(p + rest, p, r) == r + ReplaceAll(rest, p, r)
  {
    assert (p + rest)[..|p|] == p;
    assert (p + rest)[|p|..] == rest;
  }

  /** `Array.prototype.join(sep)`. */
  function Join(xs: seq<string>, sep: string): string {
    if xs == [] then ""
    else if |xs| == 1 then xs[0]
    else xs[0] + sep + Join(xs[1..], sep)
  }

  /** Splitting at every occurrence of a separator character. */
  function Split(s: string, c: char): (r: seq<string>)
    ensures |r| >= 1
  {
    if s == [] then [""]
    else if s[0] == c then [""] + Split(s[1..], c)
    else
      var rest := Split(s[1..], c);
      [[s[0]] + rest[0]] + rest[1..]
  }

  lemma {:induction false} SplitConcat(a: string, c: char, b: string)
    ensures Split(a + [c] + b, c) == Split(a, c) + Split(b, c)
  {
    if a == [] {
      assert [c] + b == a + [c] + b;
      assert ([c] + b)[1..] == b;
    } else {
      assert (a + [c] + b)[0] == a[0];
      assert (a + [c] + b)[1..] == a[1..] + [c] + b;
      SplitConcat(a[1..], c, b);
    }
  }

  /** A word without the separator is a single piece. */
  lemma {:induction false} SplitWord(w: string, c: char)
    requires c !in w
    ensures Split(w, c) == [w]
  {
    if w != [] {
      SplitWord(w[1..], c);
      assert w == [w[0]] + w[1..];
    }
  }

  /** Splitting inverts joining, as long as no piece holds the separator. */
  lemma {:induction false} SplitJoin(xs: seq<string>, c: char)
    requires |xs| > 0
    requires forall i :: 0 <= i < |xs| ==> c !in xs[i]
    ensures Split(Join(xs, [c]), c) == xs
  {
    if |xs| == 1 {
      SplitWord(xs[0], c);
    } else {
      SplitJoin(xs[1..], c);
      SplitConcat(xs[0], c, Join(xs[1..], [c]));
      SplitWord(xs[0], c);
      assert xs == [xs[0]] + xs[1..];
    }
  }

  function NonEmpty(xs: seq<string>): seq<string> {
    if xs == [] then []
    else if xs[0] == "" then NonEmpty(xs[1..])
    else [xs[0]] + NonEmpty(xs[1..])
  }

  lemma {:induction false} NonEmptyConcat(a: seq<string>, b: seq<string>)
    ensures NonEmpty(a + b) == NonEmpty(a) + NonEmpty(b)
  {
    if a != [] {
      assert (a + b)[1..] == a[1..] + b;
      NonEmptyConcat(a[1..], b);
    } else {
      assert a + b == b;
    }
  }

  lemma {:induction false} NonEmptyKeeps(xs: seq<string>)
    requires forall i :: 0 <= i < |xs| ==> xs[i] != ""
    ensures NonEmpty(xs) == xs
  {
    if xs != [] {
      NonEmptyKeeps(xs[1..]);
    }
  }

  /** The words a POSIX shell sees in a command line: runs of blanks separate them. */
  function Words(s: string): seq<string> {
    NonEmpty(Split(s, ' '))
  }

  lemma WordsConcat(a: string, b: string)
    ensures Words(a + " " + b) == Words(a) + Words(b)
  {
    SplitConcat(a, ' ', b);
    NonEmptyConcat(Split(a, ' '), Split(b, ' '));
  }

  /** Space-free, non-empty words joined by single spaces come back as they were. */
  lemma WordsJoin(xs: seq<string>)
    requires forall i :: 0 <= i < |xs| ==> xs[i] != "" && ' ' !in xs[i]
    ensures Words(Join(xs, " ")) == xs
  {
    if xs != [] {
      SplitJoin(xs, ' ');
      NonEmptyKeeps(xs);
    }
  }

  /** Index of the last `/`, if any. */
  function LastSlash(p: string): (r: Option<nat>)
    ensures r.Some? ==> r.value < |p| && p[r.value] == '/' && '/' !in p[r.value + 1..]
    ensures r.None? ==> '/' !in p
  {
    if p == [] then None
    else if p[|p| - 1] == '/' then Some(|p| - 1)
    else LastSlash(p[..|p| - 1])
  }

  /** `path.dirname` of a relative path: everything before the last `/`, or `.`. */
  function Dirname(p: string): (d: string)
    ensures '/' !in p ==> d == "."
    ensures '/' in p ==> |d| < |p| && d == p[..|d|] && p[|d|] == '/' && '/' !in p[|d| + 1..]
  {
    match LastSlash(p)
    case None => "."
    case Some(i) => p[..i]
  }

  /** `path.resolve(base, rel)` for a relative `rel`: `.` and `` name the base itself. */
  function JoinPath(base: string, rel: string): string {
    if base == "" || base == "." then rel else base + "/" + rel
  }

  lemma {:induction false} LastSlashAfter(d: string, f: string)
    requires '/' !in f
    ensures LastSlash(d + "/" + f) == Some(|d|)
    decreases |f|
  {
    var p := d + "/" + f;
    if f == [] {
      assert p[|p| - 1] == '/';
    } else {
      assert p[|p| - 1] == f[|f| - 1];
      assert p[..|p| - 1] == d + "/" + f[..|f| - 1];
      LastSlashAfter(d, f[..|f| - 1]);
    }
  }

  /** The directory of a file joined under a directory is that directory. */
  lemma DirnameJoin(d: string, f: string)
    requires d != "" && d != "."
    requires '/' !in f
    ensures Dirname(JoinPath(d, f)) == d
  {
    LastSlashAfter(d, f);
    assert (d + "/" + f)[..|d|] == d;
  }
}
