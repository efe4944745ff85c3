/** Types, identifiers and sequence and set facts shared by the components. */
module Common {
  datatype Option<+T> = None | Some(value: T)

  datatype Result<+T, +E> = Ok(value: T) | Err(error: E)

  /** The first `n` elements, or all of them when there are fewer. */
  function Take<T>(xs: seq<T>, n: nat): (r: seq<T>)
    ensures r <= xs
    ensures |r| == if n < |xs| then n else |xs|
  {
    if n < |xs| then xs[..n] else xs
  }

  function Min(a: int, b: int): (r: int)
    ensures r <= a && r <= b && (r == a || r == b)
  {
    if a <= b then a else b
  }

  const U64_LIMIT: nat := 0x1_0000_0000_0000_0000

  type U64 = n: int | 0 <= n < U64_LIMIT

  /** The time from one instant to another, zero when the order is the other way round. */
  function Elapsed(now: nat, at: nat): nat {
    if now >= at then now - at else 0
  }

  // -------------------------------------------------------------- identifiers

  predicate IsAlphanumeric(c: char) {
    'a' <= c <= 'z' || 'A' <= c <= 'Z' || '0' <= c <= '9'
  }

  predicate IsIdentifierChar(c: char) {
    IsAlphanumeric(c) || c == '.' || c == '_' || c == ':' || c == '-'
  }

  /** The identifier grammar of the inbox, of scopes and of reason codes. */
  predicate IsIdentifier(s: string) {
    0 < |s| <= 256 && IdentifierTail(s)
  }

  /** Only identifier characters, and no two dots in a row. */
  predicate IdentifierTail(s: string) {
    s != [] ==>
      IsIdentifierChar(s[0]) && (|s| > 1 && s[0] == '.' ==> s[1] != '.') && IdentifierTail(s[1..])
  }

  /** The grammar as a statement about positions. */
  lemma {:induction false} IdentifierExactly(s: string)
    ensures IdentifierTail(s) <==>
            && (forall i :: 0 <= i < |s| ==>
                  IsAlphanumeric(s[i]) || s[i] == '.' || s[i] == '_' || s[i] == ':' || s[i] == '-')
            && (forall i :: 0 <= i < |s| - 1 ==> s[i] != '.' || s[i + 1] != '.')
    ensures IsIdentifier(s) <==> 1 <= |s| <= 256 && IdentifierTail(s)
  {
    if s != [] {
      var t := s[1..];
      IdentifierExactly(t);
      assert forall i :: 0 <= i < |t| ==> t[i] == s[i + 1];
      if IdentifierTail(s) {
        forall i | 0 <= i < |s|
          ensures IsAlphanumeric(s[i]) || s[i] == '.' || s[i] == '_' || s[i] == ':' || s[i] == '-'
        {
          if i > 0 {
            assert s[i] == t[i - 1];
          }
        }
        forall i | 0 <= i < |s| - 1 ensures s[i] != '.' || s[i + 1] != '.' {
          if i > 0 {
            assert s[i] == t[i - 1] && s[i + 1] == t[i];
          }
        }
      }
    }
  }

  lemma IdentifierByChars(s: string)
    requires forall i :: 0 <= i < |s| ==> IsIdentifierChar(s[i])
    requires forall i :: 0 <= i < |s| - 1 && s[i] == '.' ==> s[i + 1] != '.'
    ensures IdentifierTail(s)
  {
    IdentifierExactly(s);
  }

  // -------------------------------------------------------- sequences and sets

  lemma ConcatAssociates<T>(a: seq<T>, b: seq<T>, c: seq<T>)
    ensures (a + b) + c == a + (b + c)
  {
  }

  lemma OneMoreTaken<T>(a: seq<T>, b: seq<T>, i: nat)
    requires i < |b|
    ensures (a + b[..i]) + [b[i]] == a + b[..i + 1]
  {
  }

  lemma PrefixOfPrefix<T>(a: seq<T>, b: seq<T>, n: nat)
    requires n <= |a| && a <= b
    ensures a[..n] == b[..n]
  {
  }

  lemma SubsetIsSmaller<T>(a: set<T>, b: set<T>)
    requires a <= b
    ensures |a| <= |b|
  {
    assert b == a + (b - a);
  }
}
