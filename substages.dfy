/**
 The selection substage descriptor of the generational scheduler: the seven
 kinds of substage with the enumerator values they carry, and the bit test that
 decides whether a substage copies survivors from the current generation.
 */
module Substages {

  datatype Option<T> = None | Some(value: T)

  /** The seven substage kinds of `SelectionSubstage::Type`. */
  datatype Kind = Roulette | Linear | Exponential | Tournament | TwoPointsCo | UniformCo | Mutate

  /** The enumerator value each kind is declared with. */
  function Tag(k: Kind): bv8
  {
    match k
    case Roulette => 0x0
    case Linear => 0x1
    case Exponential => 0x2
    case Tournament => 0x3
    case TwoPointsCo => 0x4
    case UniformCo => 0x5
    case Mutate => 0x6
  }

  /** Reads an enumerator value back; only the seven declared values name a kind. */
  function FromTag(t: bv8): (k: Option<Kind>)
    ensures k.Some? <==> t < 7
    ensures k.Some? ==> Tag(k.value) == t
  {
    if t == 0 then Some(Roulette)
    else if t == 1 then Some(Linear)
    else if t == 2 then Some(Exponential)
    else if t == 3 then Some(Tournament)
    else if t == 4 then Some(TwoPointsCo)
    else if t == 5 then Some(UniformCo)
    else if t == 6 then Some(Mutate)
    else None
  }

  /** Distinct kinds carry distinct tags, so a tag identifies its kind. */
  lemma TagRoundTrip(k: Kind)
    ensures FromTag(Tag(k)) == Some(k)
    ensures Tag(k) < 7
  {
  }

  /**
   The guard of the survivor copy block: the tag with the TWO_POINTS_CO bit
   (0b100) masked out is zero exactly for the four ranking kinds.
   */
  function CopiesSurvivors(k: Kind): (b: bool)
    ensures b <==> (k == Roulette || k == Linear || k == Exponential || k == Tournament)
    ensures b <==> !Invalidates(k)
  {
    (Tag(k) & 0x4) == 0
  }

  /** The kinds whose slots get a new genome and so push their slots on the invalidation list. */
  predicate Invalidates(k: Kind)
  {
    k == TwoPointsCo || k == UniformCo || k == Mutate
  }

  /**
   One substage: its kind, the kind-specific parameter (selection pressure,
   exponential base, tournament size, mutation probability or desired genetic
   distance, which share one storage slot) and the number of individuals it fills.
   */
  datatype Substage = Substage(kind: Kind, param: real, individuals: nat)
}
