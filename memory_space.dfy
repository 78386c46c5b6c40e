/**
 * The PTX memory-space descriptor `memory_space_t`: an address-space kind
 * plus a bank number, with equality, lexicographic ordering and the
 * three space predicates used by the functional simulator.
 */
module MemorySpace {

  /** The enumeration `_memory_space_t`, in declaration order. */
  datatype SpaceKind =
    | UndefinedSpace
    | RegSpace
    | LocalSpace
    | SharedSpace
    | SstarrSpace
    | ParamSpaceUnclassified
    | ParamSpaceKernel
    | ParamSpaceLocal
    | ConstSpace
    | TexSpace
    | SurfSpace
    | GlobalSpace
    | GenericSpace
    | InstructionSpace

  /** The integer value of an enumerator (`undefined_space = 0`, then consecutive). */
  function Ordinal(k: SpaceKind): (n: nat)
    ensures n < 14
    ensures k == UndefinedSpace <==> n == 0
  {
    match k
    case UndefinedSpace => 0
    case RegSpace => 1
    case LocalSpace => 2
    case SharedSpace => 3
    case SstarrSpace => 4
    case ParamSpaceUnclassified => 5
    case ParamSpaceKernel => 6
    case ParamSpaceLocal => 7
    case ConstSpace => 8
    case TexSpace => 9
    case SurfSpace => 10
    case GlobalSpace => 11
    case GenericSpace => 12
    case InstructionSpace => 13
  }

  /** Distinct enumerators have distinct values. */
  lemma OrdinalInjective(a: SpaceKind, b: SpaceKind)
    ensures Ordinal(a) == Ordinal(b) <==> a == b
  {
  }

  /** `memory_space_t`: the space kind and the bank (an `unsigned`). */
  datatype Space = Space(kind: SpaceKind, bank: nat)

  /** The default constructor. */
  function Default(): (s: Space)
    ensures s.kind == UndefinedSpace && s.bank == 0
  {
    Space(UndefinedSpace, 0)
  }

  /** The constructor from an enumerator: the bank is always 0. */
  function FromKind(k: SpaceKind): (s: Space)
    ensures s.kind == k && s.bank == 0
  {
    Space(k, 0)
  }

  /** `operator==`: compares bank and type. */
  predicate Equal(x: Space, y: Space)
  {
    x.bank == y.bank && x.kind == y.kind
  }

  /** `operator!=`: the negation of `operator==`. */
  predicate NotEqual(x: Space, y: Space)
  {
    !Equal(x, y)
  }

  /** `operator<`: first by type value, then by bank. */
  predicate Less(x: Space, y: Space)
  {
    if Ordinal(x.kind) < Ordinal(y.kind) then true
    else if Ordinal(x.kind) > Ordinal(y.kind) then false
    else x.bank < y.bank
  }

  /** `operator==` is exactly equality of the descriptors, and `!=` its negation. */
  lemma EqualIsIdentity(x: Space, y: Space)
    ensures Equal(x, y) <==> x == y
    ensures NotEqual(x, y) <==> x != y
  {
  }

  /** `<` is irreflexive. */
  lemma LessIrreflexive(x: Space)
    ensures !Less(x, x)
  {
  }

  /** `<` is transitive. */
  lemma LessTransitive(x: Space, y: Space, z: Space)
    requires Less(x, y) && Less(y, z)
    ensures Less(x, z)
  {
  }

  /** `<` is total and consistent with `==`: exactly one of `x < y`, `x == y`, `y < x`. */
  lemma LessTrichotomous(x: Space, y: Space)
    ensures Less(x, y) || Equal(x, y) || Less(y, x)
    ensures !(Less(x, y) && Less(y, x))
    ensures Equal(x, y) ==> !Less(x, y)
  {
    OrdinalInjective(x.kind, y.kind);
  }

  /** `get_type` / `set_type`: the setter changes the type and nothing else. */
  function SetKind(s: Space, k: SpaceKind): (r: Space)
    ensures r.kind == k && r.bank == s.bank
  {
    s.(kind := k)
  }

  /** `set_bank`: changes the bank and nothing else. */
  function SetBank(s: Space, b: nat): (r: Space)
    ensures r.bank == b && r.kind == s.kind
  {
    s.(bank := b)
  }

  /** `is_const`: constant space or kernel parameters. */
  predicate IsConst(s: Space)
  {
    s.kind == ConstSpace || s.kind == ParamSpaceKernel
  }

  /** `is_local`: local space or thread-local parameters. */
  predicate IsLocal(s: Space)
  {
    s.kind == LocalSpace || s.kind == ParamSpaceLocal
  }

  /** `is_global`: global space only. */
  predicate IsGlobal(s: Space)
  {
    s.kind == GlobalSpace
  }

  /** The three predicates depend only on the type and hold for disjoint sets of
      types; the bank never matters. */
  lemma SpacePredicatesDisjoint(s: Space, b: nat)
    ensures !(IsConst(s) && IsLocal(s)) && !(IsConst(s) && IsGlobal(s)) && !(IsLocal(s) && IsGlobal(s))
    ensures IsConst(s) == IsConst(SetBank(s, b))
    ensures IsLocal(s) == IsLocal(SetBank(s, b))
    ensures IsGlobal(s) == IsGlobal(SetBank(s, b))
  {
  }

  /** The default descriptor is the least one under `<`. */
  lemma DefaultIsLeast(s: Space)
    ensures s == Default() || Less(Default(), s)
  {
  }
}
