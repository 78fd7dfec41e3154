/** Joining a list of possibly-null strings with a separator, skipping the
    nulls: the observable behaviour of `Joiner.on(sep).skipNulls().join(parts)`. */
module Joiner {
  import opened Expiration

  /** The non-null elements of `parts`, in order. */
  function Present(parts: seq<Option<string>>): (r: seq<string>)
    ensures |r| <= |parts|
    ensures forall s :: s in r <==> Some(s) in parts
  {
    if |parts| == 0 then []
    else if parts[0].Some? then [parts[0].value] + Present(parts[1..])
    else Present(parts[1..])
  }

  /** `parts` with `sep` between each two neighbours. */
  function Join(sep: string, parts: seq<string>): string
  {
    if |parts| == 0 then ""
    else if |parts| == 1 then parts[0]
    else parts[0] + sep + Join(sep, parts[1..])
  }

  /** The non-null elements of `parts`, joined with `sep`. */
  function JoinSkipNulls(sep: string, parts: seq<Option<string>>): string
  {
    Join(sep, Present(parts))
  }

  /** Filtering distributes over concatenation. */
  lemma {:induction false} PresentConcat(a: seq<Option<string>>, b: seq<Option<string>>)
    ensures Present(a + b) == Present(a) + Present(b)
  {
    if |a| == 0 {
      assert a + b == b;
    } else {
      assert (a + b)[1..] == a[1..] + b;
      PresentConcat(a[1..], b);
    }
  }

  /** Without any non-null element the filtered list is empty. */
  lemma {:induction false} PresentOfNulls(parts: seq<Option<string>>)
    requires forall i :: 0 <= i < |parts| ==> parts[i].None?
    ensures Present(parts) == []
  {
    if |parts| > 0 {
      PresentOfNulls(parts[1..]);
    }
  }

  /** Joining two non-empty lists puts exactly one separator between them. */
  lemma {:induction false} JoinConcat(sep: string, a: seq<string>, b: seq<string>)
    requires |a| > 0 && |b| > 0
    ensures Join(sep, a + b) == Join(sep, a) + sep + Join(sep, b)
  {
    if |a| == 1 {
      assert (a + b)[1..] == b;
    } else {
      assert (a + b)[1..] == a[1..] + b;
      JoinConcat(sep, a[1..], b);
    }
  }

  /** Appending one more element, as a left-to-right string builder does:
      the separator is written only after something has already been written. */
  lemma JoinAppend(sep: string, parts: seq<string>, s: string)
    ensures Join(sep, parts + [s]) == if |parts| == 0 then s else Join(sep, parts) + sep + s
  {
    if |parts| == 0 {
      assert parts + [s] == [s];
    } else {
      JoinConcat(sep, parts, [s]);
    }
  }

  /** A null element contributes neither text nor a separator, wherever it is. */
  lemma NullContributesNothing(sep: string, a: seq<Option<string>>, b: seq<Option<string>>)
    ensures JoinSkipNulls(sep, a + [None] + b) == JoinSkipNulls(sep, a + b)
  {
    var nothing: seq<Option<string>> := [None];
    assert nothing[1..] == [];
    calc {
      Present(a + nothing + b);
      { PresentConcat(a + nothing, b); }
      Present(a + nothing) + Present(b);
      { PresentConcat(a, nothing); }
      Present(a) + Present(nothing) + Present(b);
      { PresentConcat(a, b); }
      Present(a + b);
    }
  }

  /** Appending a non-null element to the list being joined. */
  lemma SkipNullsAppend(sep: string, parts: seq<Option<string>>, s: string)
    ensures JoinSkipNulls(sep, parts + [Some(s)]) ==
      if Present(parts) == [] then s else JoinSkipNulls(sep, parts) + sep + s
  {
    PresentConcat(parts, [Some(s)]);
    assert [Some(s)][1..] == [];
    assert Present([Some(s)]) == [s];
    JoinAppend(sep, Present(parts), s);
  }

  /** Only nulls join to the empty string (not to null). */
  lemma AllNullsJoinEmpty(sep: string, parts: seq<Option<string>>)
    requires forall i :: 0 <= i < |parts| ==> parts[i].None?
    ensures JoinSkipNulls(sep, parts) == ""
  {
    PresentOfNulls(parts);
  }

  /** A single non-null element joins to itself, whatever nulls surround it. */
  lemma SingleJoinsToItself(sep: string, a: seq<Option<string>>, s: string, b: seq<Option<string>>)
    requires forall i :: 0 <= i < |a| ==> a[i].None?
    requires forall i :: 0 <= i < |b| ==> b[i].None?
    ensures JoinSkipNulls(sep, a + [Some(s)] + b) == s
  {
    PresentConcat(a + [Some(s)], b);
    PresentConcat(a, [Some(s)]);
    PresentOfNulls(a);
    PresentOfNulls(b);
    assert [Some(s)][1..] == [];
    assert Present([Some(s)]) == [s];
  }
}
