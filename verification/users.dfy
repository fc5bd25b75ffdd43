/** The user record the table displays, the attributes it can be sorted by,
    and the ordering JavaScript's `<` puts on string attributes. */
module Users {

  /** One loaded user; the table only reads it. */
  datatype User = User(
    id: string,
    name: string,
    gender: string,
    hair: string,
    eyes: string,
    glasses: bool,
    avatar: string,
    roles: seq<string>)

  /** The string-valued attributes a header can sort by (`keyof User`). */
  datatype Field = Name | Gender | Hair | Eyes | Avatar

  /** `'asc' | 'desc'` */
  datatype Direction = Asc | Desc

  /** `a[field]`: the value the comparator looks at. */
  function Key(u: User, f: Field): (r: string)
    ensures r in [u.name, u.gender, u.hair, u.eyes, u.avatar]
  {
    match f
    case Name => u.name
    case Gender => u.gender
    case Hair => u.hair
    case Eyes => u.eyes
    case Avatar => u.avatar
  }

  /** JavaScript's `a < b` on strings: the first differing character
      decides, and a proper prefix comes first. */
  predicate Less(a: string, b: string)
    ensures Less(a, b) <==> ProperPrefix(a, b) || DiffersFirstBelow(a, b)
    decreases |a|
  {
    if |a| == 0 then |b| > 0
    else if |b| == 0 then false
    else if a[0] != b[0] then
      assert DiffersAt(a, b, 0);
      a[0] < b[0]
    else
      ShiftPrefix(a, b);
      Less(a[1..], b[1..])
  }

  /** `a` is a proper prefix of `b`. */
  predicate ProperPrefix(a: string, b: string)
  {
    |a| < |b| && a == b[..|a|]
  }

  /** `a` and `b` agree before position `k` and differ at it. */
  predicate DiffersAt(a: string, b: string, k: nat)
  {
    k < |a| && k < |b| && a[..k] == b[..k] && a[k] != b[k]
  }

  /** At the first position where `a` and `b` differ, `a` has the smaller
      character. */
  ghost predicate DiffersFirstBelow(a: string, b: string)
  {
    exists k: nat :: DiffersAt(a, b, k) && a[k] < b[k]
  }

  /** Dropping an equal first character keeps both kinds of precedence. */
  lemma ShiftPrefix(a: string, b: string)
    requires |a| > 0 && |b| > 0 && a[0] == b[0]
    ensures ProperPrefix(a, b) <==> ProperPrefix(a[1..], b[1..])
    ensures DiffersFirstBelow(a, b) <==> DiffersFirstBelow(a[1..], b[1..])
  {
    assert a == [a[0]] + a[1..] && b == [b[0]] + b[1..];
    if DiffersFirstBelow(a, b) {
      var k: nat :| DiffersAt(a, b, k) && a[k] < b[k];
      assert k > 0;
      assert a[1..][..k - 1] == a[..k][1..] && b[1..][..k - 1] == b[..k][1..];
      assert DiffersAt(a[1..], b[1..], k - 1);
    }
    if DiffersFirstBelow(a[1..], b[1..]) {
      var k: nat :| DiffersAt(a[1..], b[1..], k) && a[1..][k] < b[1..][k];
      assert a[..k + 1] == [a[0]] + a[1..][..k] && b[..k + 1] == [b[0]] + b[1..][..k];
      assert DiffersAt(a, b, k + 1);
    }
  }

  lemma {:induction false} LessIrreflexive(a: string)
    ensures !Less(a, a)
    decreases |a|
  {
    if |a| > 0 {
      LessIrreflexive(a[1..]);
    }
  }

  lemma {:induction false} LessAsymmetric(a: string, b: string)
    ensures Less(a, b) ==> !Less(b, a)
    decreases |a|
  {
    if |a| > 0 && |b| > 0 && a[0] == b[0] {
      LessAsymmetric(a[1..], b[1..]);
    }
  }

  lemma {:induction false} LessTransitive(a: string, b: string, c: string)
    ensures Less(a, b) && Less(b, c) ==> Less(a, c)
    decreases |a|
  {
    if |a| > 0 && |b| > 0 && |c| > 0 && a[0] == b[0] == c[0] {
      LessTransitive(a[1..], b[1..], c[1..]);
    }
  }

  /** Two different strings are always ordered one way or the other, so
      the comparator returns 0 exactly on equal keys. */
  lemma {:induction false} LessTotal(a: string, b: string)
    ensures a == b || Less(a, b) || Less(b, a)
    decreases |a|
  {
    if |a| > 0 && |b| > 0 && a[0] == b[0] {
      LessTotal(a[1..], b[1..]);
      if a[1..] == b[1..] {
        assert a == [a[0]] + a[1..] && b == [b[0]] + b[1..];
      }
    }
  }

  /** "Not less than" is transitive, so a list ordered pairwise can be
      extended one element at a time. */
  lemma NotLessTransitive(a: string, b: string, c: string)
    ensures !Less(b, a) && !Less(c, b) ==> !Less(c, a)
  {
    LessTotal(a, b);
    LessTotal(b, c);
    LessTransitive(a, b, c);
    LessAsymmetric(a, c);
  }
}
