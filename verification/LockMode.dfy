/** Lock modes: which may be held together, and which counts as stronger. */
module LockMode {
  datatype Mode = NL | IS | IX | S | SIX | X | U

  /** The compatibility matrix. */
  predicate Compatible(requested: Mode, held: Mode) {
    match requested
    case NL => true
    case IS => held != X
    case IX => held == NL || held == IS || held == IX
    case S => held == NL || held == IS || held == S || held == U
    case SIX => held == NL || held == IS
    case X => held == NL
    case U => held == NL || held == IS || held == S
  }

  function Strength(m: Mode): nat {
    match m
    case NL => 0
    case IS => 1
    case IX => 2
    case S => 3
    case SIX => 4
    case X => 6
    case U => 5
  }

  function DominantMode(a: Mode, b: Mode): Mode {
    if Strength(a) >= Strength(b) then a else b
  }

  lemma CompatibleSymmetric(a: Mode, b: Mode)
    ensures Compatible(a, b) == Compatible(b, a)
  {
  }

  /** What a lock on a whole stands for: reading or writing all of it, reading or writing parts. */
  datatype Rights = Rights(readAll: bool, writeAll: bool, readPart: bool, writePart: bool)

  function RightsOf(m: Mode): Rights {
    match m
    case NL => Rights(false, false, false, false)
    case IS => Rights(false, false, true, false)
    case IX => Rights(false, false, true, true)
    case S => Rights(true, false, false, false)
    case SIX => Rights(true, false, true, true)
    case X => Rights(true, true, true, true)
    case U => Rights(true, false, false, false)
  }

  /** One of them writes the whole and the other does anything, or one writes parts and the other reads
      the whole. */
  predicate Clash(a: Rights, b: Rights) {
    || (a.writeAll && (b.readAll || b.readPart)) || (b.writeAll && (a.readAll || a.readPart))
    || (a.writePart && b.readAll) || (b.writePart && a.readAll)
  }

  /** The matrix lets two locks be held together exactly if their rights do not clash, but no two update
      locks. */
  lemma MatrixMeansRights(a: Mode, b: Mode)
    ensures Compatible(a, b) <==> !Clash(RightsOf(a), RightsOf(b)) && !(a == U && b == U)
  {
  }

  /** Of two modes held together, the stronger one lets in no more than the weaker. */
  lemma StrongerExcludesMore(a: Mode, b: Mode, m: Mode)
    requires Compatible(a, b) && Strength(a) >= Strength(b) && Compatible(m, a)
    ensures Compatible(m, b)
  {
  }
}
