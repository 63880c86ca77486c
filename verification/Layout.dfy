/** Buffers as a row of fields. */
module Layout {
  import opened Bytes

  /** A row of fields that ends the buffer, or after which anything may follow. */
  datatype Row = End | Open | Field(bytes: seq<byte>, next: Row)

  /** The fields lie in `s` from `at` on, one behind the other. */
  ghost predicate Holds(s: seq<byte>, at: nat, row: Row)
    decreases row
  {
    match row
    case End => at == |s|
    case Open => at <= |s|
    case Field(b, next) => at + |b| <= |s| && s[at..at + |b|] == b && Holds(s, at + |b|, next)
  }

  function Join(row: Row): seq<byte> {
    if row.Field? then row.bytes + Join(row.next) else []
  }

  /** The first field, and the others behind it. */
  lemma First(s: seq<byte>, at: nat, b: seq<byte>, next: Row)
    ensures Holds(s, at, Field(b, next)) <==> at + |b| <= |s| && s[at..at + |b|] == b && Holds(s, at + |b|, next)
  {
  }

  /** Two neighbouring fields are one. */
  lemma Two(s: seq<byte>, at: nat, a: seq<byte>, b: seq<byte>, next: Row)
    ensures Holds(s, at, Field(a + b, next)) <==> Holds(s, at, Field(a, Field(b, next)))
  {
    if at + |a| + |b| <= |s| {
      var m := at + |a|;
      var n := m + |b|;
      assert s[at..n] == s[at..m] + s[m..n];
      assert (a + b)[..|a|] == a && (a + b)[|a|..] == b;
    }
  }

  ghost predicate Closed(row: Row) {
    row.End? || (row.Field? && Closed(row.next))
  }

  lemma {:induction false} HoldsIsJoin(s: seq<byte>, at: nat, row: Row)
    requires Closed(row) && at <= |s|
    ensures Holds(s, at, row) <==> s[at..] == Join(row)
    decreases row
  {
    if row.Field? {
      var b := row.bytes;
      if at + |b| <= |s| {
        HoldsIsJoin(s, at + |b|, row.next);
        assert s[at..] == s[at..at + |b|] + s[at + |b|..];
      }
    }
  }

  lemma SubSlice(s: seq<byte>, at: nat, l: nat, i: nat, j: nat)
    requires at + l <= |s| && i <= j <= l
    ensures s[at..at + l][i..j] == s[at + i..at + j]
  {
    var t := s[at..at + l];
    assert forall k :: 0 <= k < j - i ==> t[i..j][k] == s[at + i + k] == s[at + i..at + j][k];
    assert t[i..j] == s[at + i..at + j];
  }
}
