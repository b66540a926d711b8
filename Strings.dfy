/**
  The two ways the source cuts a string at a character, and the one case
  conversion it uses.

  - `Components` is Foundation's `components(separatedBy:)` for a one-character
    separator: every piece between two separators is kept, empty ones included,
    so there is always at least one piece and joining the pieces gives the
    string back.
  - `Split` is Swift's `split(separator:)` with its default
    `omittingEmptySubsequences: true`: the same pieces with the empty ones
    dropped.
 */
module Strings {

  /**
    All the pieces of `s` between occurrences of `sep`, empty ones included:
    at least one piece, and none holding the separator (`JoinComponents`
    shows that they give `s` back).
   */
  function Components(s: string, sep: char): (parts: seq<string>)
    ensures |parts| >= 1
    ensures forall k :: 0 <= k < |parts| ==> sep !in parts[k]
    decreases |s|
  {
    if s == [] then [[]]
    else
      var init := Components(s[..|s| - 1], sep);
      var c := s[|s| - 1];
      if c == sep then init + [[]] else ExtendLast(init, c)
  }

  /** `parts` with `c` appended to its last element. */
  function ExtendLast(parts: seq<string>, c: char): seq<string>
    requires |parts| >= 1
  {
    parts[..|parts| - 1] + [parts[|parts| - 1] + [c]]
  }

  lemma ExtendLastAfterPrefix(front: seq<string>, parts: seq<string>, c: char)
    requires |parts| >= 1
    ensures ExtendLast(front + parts, c) == front + ExtendLast(parts, c)
  {
    assert (front + parts)[..|front + parts| - 1] == front + parts[..|parts| - 1];
  }

  /** The pieces glued back together with `sep` between neighbours. */
  function Join(parts: seq<string>, sep: char): string
    requires |parts| >= 1
  {
    if |parts| == 1 then parts[0]
    else Join(parts[..|parts| - 1], sep) + [sep] + parts[|parts| - 1]
  }

  /** The non-empty elements of `parts`, in order. */
  function NonEmpty(parts: seq<string>): (r: seq<string>)
    ensures |r| <= |parts|
  {
    if parts == [] then []
    else
      var last := parts[|parts| - 1];
      NonEmpty(parts[..|parts| - 1]) + (if last == [] then [] else [last])
  }

  /** The non-empty runs of `s` that contain no `sep`, in order. */
  function Split(s: string, sep: char): (pieces: seq<string>)
    ensures forall k :: 0 <= k < |pieces| ==> pieces[k] != [] && sep !in pieces[k]
  {
    var parts := Components(s, sep);
    NonEmptyElements(parts);
    NonEmpty(parts)
  }

  /** Swift's `uppercased()`, restricted to the ASCII letters. */
  function UpperChar(c: char): char
  {
    if 'a' <= c <= 'z' then (c as int - 'a' as int + 'A' as int) as char else c
  }

  /**
    Every lower-case ASCII letter of `s` replaced by its capital, every
    other character kept: the same length and no lower-case ASCII letter left.
   */
  function Uppercased(s: string): (u: string)
    ensures |u| == |s|
    ensures forall i :: 0 <= i < |s| ==> !('a' <= u[i] <= 'z')
    ensures forall i :: 0 <= i < |s| && 'a' <= s[i] <= 'z' ==> u[i] as int == s[i] as int - 32
    ensures forall i :: 0 <= i < |s| && !('a' <= s[i] <= 'z') ==> u[i] == s[i]
  {
    seq(|s|, i requires 0 <= i < |s| => UpperChar(s[i]))
  }

  // ---------------------------------------------------------------------
  // Components

  /** Extending the last piece extends the joined string. */
  lemma JoinExtendLast(parts: seq<string>, c: char, sep: char)
    requires |parts| >= 1
    ensures Join(ExtendLast(parts, c), sep) == Join(parts, sep) + [c]
  {
    var extended := ExtendLast(parts, c);
    var n := |parts| - 1;
    if n > 0 {
      assert extended[..n] == parts[..n];
      assert Join(extended, sep) == Join(parts[..n], sep) + [sep] + (parts[n] + [c]);
    }
  }

  /** Joining the components with the separator gives the string back. */
  lemma {:induction false} JoinComponents(s: string, sep: char)
    ensures Join(Components(s, sep), sep) == s
    decreases |s|
  {
    if s != [] {
      var s' := s[..|s| - 1];
      var c := s[|s| - 1];
      assert s == s' + [c];
      JoinComponents(s', sep);
      ComponentsSnoc(s', c, sep);
      var init := Components(s', sep);
      if c == sep {
        assert (init + [[]])[..|init|] == init;
      } else {
        JoinExtendLast(init, c, sep);
      }
    }
  }

  /** A string without the separator is its own only component. */
  lemma {:induction false} ComponentsWithoutSep(s: string, sep: char)
    requires sep !in s
    ensures Components(s, sep) == [s]
    decreases |s|
  {
    if s != [] {
      ComponentsWithoutSep(s[..|s| - 1], sep);
      assert s[..|s| - 1] + [s[|s| - 1]] == s;
    }
  }

  /** One more character either opens a new component or extends the last one. */
  lemma ComponentsSnoc(s: string, c: char, sep: char)
    ensures Components(s + [c], sep) == if c == sep then Components(s, sep) + [[]] else ExtendLast(Components(s, sep), c)
  {
    assert (s + [c])[..|s + [c]| - 1] == s;
  }

  /** Cutting at one separator splits the component list in two. */
  lemma {:induction false} ComponentsConcat(u: string, v: string, sep: char)
    ensures Components(u + [sep] + v, sep) == Components(u, sep) + Components(v, sep)
    decreases |v|
  {
    if v == [] {
      assert u + [sep] + v == u + [sep];
      ComponentsSnoc(u, sep, sep);
    } else {
      var v' := v[..|v| - 1];
      var c := v[|v| - 1];
      assert v == v' + [c];
      assert u + [sep] + v == (u + [sep] + v') + [c];
      ComponentsConcat(u, v', sep);
      ComponentsSnoc(u + [sep] + v', c, sep);
      ComponentsSnoc(v', c, sep);
      var cu, cv := Components(u, sep), Components(v', sep);
      if c == sep {
        assert (cu + cv) + [[]] == cu + (cv + [[]]);
      } else {
        ExtendLastAfterPrefix(cu, cv, c);
      }
    }
  }

  /** Components of a join of separator-free pieces are those pieces. */
  lemma {:induction false} ComponentsOfJoin(parts: seq<string>, sep: char)
    requires |parts| >= 1
    requires forall k :: 0 <= k < |parts| ==> sep !in parts[k]
    ensures Components(Join(parts, sep), sep) == parts
    decreases |parts|
  {
    var last := parts[|parts| - 1];
    ComponentsWithoutSep(last, sep);
    if |parts| > 1 {
      var init := parts[..|parts| - 1];
      assert forall k :: 0 <= k < |init| ==> init[k] == parts[k];
      var front := Join(init, sep);
      assert Join(parts, sep) == front + [sep] + last;
      ComponentsOfJoin(init, sep);
      ComponentsConcat(front, last, sep);
      assert init + [last] == parts;
    } else {
      assert parts == [last];
    }
  }

  /** Every component is empty exactly when every character is the separator. */
  lemma {:induction false} ComponentsAllEmpty(s: string, sep: char)
    ensures (forall k :: 0 <= k < |Components(s, sep)| ==> Components(s, sep)[k] == [])
        <==> (forall i :: 0 <= i < |s| ==> s[i] == sep)
    decreases |s|
  {
    if s != [] {
      var s' := s[..|s| - 1];
      var init := Components(s', sep);
      ComponentsAllEmpty(s', sep);
      if s[|s| - 1] == sep {
        assert forall k :: 0 <= k < |init| ==> Components(s, sep)[k] == init[k];
        assert forall i :: 0 <= i < |s'| ==> s[i] == s'[i];
      } else {
        var parts := Components(s, sep);
        assert parts[|parts| - 1] != [];
      }
    }
  }

  // ---------------------------------------------------------------------
  // NonEmpty and Split

  /** NonEmpty keeps only non-empty elements, each taken from its input. */
  lemma {:induction false} NonEmptyElements(parts: seq<string>)
    ensures forall k :: 0 <= k < |NonEmpty(parts)| ==> NonEmpty(parts)[k] != [] && NonEmpty(parts)[k] in parts
    decreases |parts|
  {
    if parts != [] {
      NonEmptyElements(parts[..|parts| - 1]);
    }
  }

  lemma {:induction false} NonEmptyAppend(a: seq<string>, b: seq<string>)
    ensures NonEmpty(a + b) == NonEmpty(a) + NonEmpty(b)
    decreases |b|
  {
    if b == [] {
      assert a + b == a;
    } else {
      var b' := b[..|b| - 1];
      assert (a + b)[..|a + b| - 1] == a + b';
      NonEmptyAppend(a, b');
    }
  }

  lemma {:induction false} NonEmptyKeepsNonEmpty(parts: seq<string>)
    requires forall k :: 0 <= k < |parts| ==> parts[k] != []
    ensures NonEmpty(parts) == parts
    decreases |parts|
  {
    if parts != [] {
      NonEmptyKeepsNonEmpty(parts[..|parts| - 1]);
    }
  }

  lemma {:induction false} NonEmptyIsEmpty(parts: seq<string>)
    ensures NonEmpty(parts) == [] <==> forall k :: 0 <= k < |parts| ==> parts[k] == []
    decreases |parts|
  {
    if parts != [] {
      NonEmptyIsEmpty(parts[..|parts| - 1]);
      assert forall k :: 0 <= k < |parts| - 1 ==> parts[..|parts| - 1][k] == parts[k];
    }
  }

  /** Swift's split of `u`, a separator and `v` is the split of `u` followed by that of `v`. */
  lemma SplitConcat(u: string, v: string, sep: char)
    ensures Split(u + [sep] + v, sep) == Split(u, sep) + Split(v, sep)
  {
    ComponentsConcat(u, v, sep);
    NonEmptyAppend(Components(u, sep), Components(v, sep));
  }

  /** A non-empty string without the separator splits into itself alone. */
  lemma SplitWithoutSep(s: string, sep: char)
    requires s != [] && sep !in s
    ensures Split(s, sep) == [s]
  {
    ComponentsWithoutSep(s, sep);
  }

  /** Split undoes Join for non-empty, separator-free pieces. */
  lemma SplitOfJoin(pieces: seq<string>, sep: char)
    requires |pieces| >= 1
    requires forall k :: 0 <= k < |pieces| ==> pieces[k] != [] && sep !in pieces[k]
    ensures Split(Join(pieces, sep), sep) == pieces
  {
    ComponentsOfJoin(pieces, sep);
    NonEmptyKeepsNonEmpty(pieces);
  }

  /** Split finds no piece exactly when the string holds nothing but separators. */
  lemma SplitIsEmpty(s: string, sep: char)
    ensures Split(s, sep) == [] <==> forall i :: 0 <= i < |s| ==> s[i] == sep
  {
    var parts := Components(s, sep);
    assert Split(s, sep) == NonEmpty(parts);
    NonEmptyIsEmpty(parts);
    ComponentsAllEmpty(s, sep);
  }

  // ---------------------------------------------------------------------
  // Uppercased

  /** Upper-casing twice is upper-casing once. */
  lemma UppercasedIdempotent(s: string)
    ensures Uppercased(Uppercased(s)) == Uppercased(s)
  {
  }
}
