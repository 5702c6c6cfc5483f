/**
 * The generated identifier of a sprite child: the file's names joined by
 * the separator, as the standard `join` on a list of strings does.
 */
module Ids {

  /** `segments` with `separator` between neighbours; the empty list gives the empty string. */
  function Join(segments: seq<string>, separator: string): string
  {
    if segments == [] then ""
    else if |segments| == 1 then segments[0]
    else segments[0] + separator + Join(segments[1..], separator)
  }

  /** Adding a segment at the end adds the separator and the segment to the identifier. */
  lemma {:induction false} JoinSnoc(segments: seq<string>, last: string, separator: string)
    ensures Join(segments + [last], separator)
         == if segments == [] then last else Join(segments, separator) + separator + last
  {
    if |segments| > 1 {
      assert (segments + [last])[1..] == segments[1..] + [last];
      JoinSnoc(segments[1..], last, separator);
    } else if |segments| == 1 {
      assert (segments + [last])[1..] == [last];
    }
  }

  /** No segment contains the character `c`. */
  predicate Avoids(segments: seq<string>, c: char)
  {
    forall i, j :: 0 <= i < |segments| && 0 <= j < |segments[i]| ==> segments[i][j] != c
  }

  /** The first segment of a joined identifier ends where the separator's first character first occurs. */
  lemma JoinHead(segments: seq<string>, separator: string)
    requires |segments| > 1 && separator != []
    ensures Join(segments, separator)[..|segments[0]|] == segments[0]
    ensures Join(segments, separator)[|segments[0]|] == separator[0]
    ensures Join(segments, separator)[|segments[0]| + |separator|..] == Join(segments[1..], separator)
  {
    var s0, rest := segments[0], Join(segments[1..], separator);
    assert Join(segments, separator) == s0 + separator + rest;
    assert (s0 + separator + rest)[|s0| + |separator|..] == rest;
  }

  /**
   * When no segment contains the separator's first character, the
   * identifier determines the segments: different non-empty name lists
   * give different identifiers.
   */
  lemma {:induction false} JoinInjective(a: seq<string>, b: seq<string>, separator: string)
    requires separator != []
    requires a != [] && b != []
    requires Avoids(a, separator[0]) && Avoids(b, separator[0])
    requires Join(a, separator) == Join(b, separator)
    ensures a == b
  {
    var s := Join(a, separator);
    if |a| > 1 && |b| > 1 {
      JoinHead(a, separator);
      JoinHead(b, separator);
      assert |a[0]| == |b[0]|;
      assert a[0] == s[..|a[0]|] == b[0];
      assert Avoids(a[1..], separator[0]) by {
        forall i, j | 0 <= i < |a[1..]| && 0 <= j < |a[1..][i]| ensures a[1..][i][j] != separator[0] {
          assert a[1..][i] == a[i + 1];
        }
      }
      assert Avoids(b[1..], separator[0]) by {
        forall i, j | 0 <= i < |b[1..]| && 0 <= j < |b[1..][i]| ensures b[1..][i][j] != separator[0] {
          assert b[1..][i] == b[i + 1];
        }
      }
      JoinInjective(a[1..], b[1..], separator);
      assert a == [a[0]] + a[1..] && b == [b[0]] + b[1..];
    } else if |a| > 1 {
      JoinHead(a, separator);
    } else if |b| > 1 {
      JoinHead(b, separator);
    }
  }

  /**
   * Without that restriction identifiers can coincide: the single name
   * "a-b" and the names "a", "b" both give "a-b" with the default separator.
   */
  lemma JoinCollision()
    ensures ["a-b"] != ["a", "b"]
    ensures Join(["a-b"], "-") == Join(["a", "b"], "-") == "a-b"
  {
    assert ["a", "b"][1..] == ["b"];
  }
}
