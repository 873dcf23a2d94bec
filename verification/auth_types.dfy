/**
  The authentication factors and the status codes the daemon exchanges with its
  clients (service/authcommon/type.go, service/authenticate/session/status.go).

  A factor type is a string in the daemon; each string constant is one constructor
  here and every other string is Unrecognised.
 */
module AuthTypes {

  datatype AuthType =
    | Password
    | Fingerprint
    | Face
    | ActiveDirectory
    | UKey
    | FingerVein
    | Iris
    | Custom
    | Unrecognised(name: string)

  /** A machine word of 32 bits: one bit per factor. */
  datatype Flag = Flag(bits: bv32)

  /** The bitwise or of several flags. */
  type Mask = bv32

  const FLAG_PASSWORD := Flag(0x1)
  const FLAG_FINGERPRINT := Flag(0x2)
  const FLAG_FACE := Flag(0x4)
  const FLAG_ACTIVE_DIRECTORY := Flag(0x8)
  const FLAG_UKEY := Flag(0x10)
  const FLAG_FINGER_VEIN := Flag(0x20)
  const FLAG_IRIS := Flag(0x40)
  const FLAG_CUSTOM := Flag(0x4000_0000)

  /** AllAuthenticationFlag: the integer -1, used for the aggregate of a session. */
  const FLAG_ALL := Flag(0xFFFF_FFFF)

  function AuthTypeToFlag(t: AuthType): Flag {
    match t
    case Password => FLAG_PASSWORD
    case Fingerprint => FLAG_FINGERPRINT
    case Face => FLAG_FACE
    case ActiveDirectory => FLAG_ACTIVE_DIRECTORY
    case UKey => FLAG_UKEY
    case FingerVein => FLAG_FINGER_VEIN
    case Iris => FLAG_IRIS
    case Custom => FLAG_CUSTOM
    case Unrecognised(_) => Flag(0)
  }

  function AuthFlagToType(f: Flag): AuthType {
    if f == FLAG_PASSWORD then Password
    else if f == FLAG_FINGERPRINT then Fingerprint
    else if f == FLAG_FACE then Face
    else if f == FLAG_ACTIVE_DIRECTORY then ActiveDirectory
    else if f == FLAG_UKEY then UKey
    else if f == FLAG_FINGER_VEIN then FingerVein
    else if f == FLAG_IRIS then Iris
    else if f == FLAG_CUSTOM then Custom
    else if f == FLAG_ALL then Unrecognised("All")
    else Unrecognised("unknown")
  }

  /** The flag of a factor determines the factor, for every factor that has one. */
  lemma FlagDeterminesType(t: AuthType)
    ensures AuthFlagToType(AuthTypeToFlag(t)) == t <==> !t.Unrecognised? || t.name == "unknown"
    ensures AuthTypeToFlag(t) != FLAG_ALL
  {
  }

  /** The numbers of the factors on the wire, which daemon and client each write down for themselves. */
  lemma FlagsOnTheWire(t: AuthType)
    ensures AuthTypeToFlag(t).bits ==
            if t == Password then 0x1 else if t == Fingerprint then 0x2 else if t == Face then 0x4
            else if t == ActiveDirectory then 0x8 else if t == UKey then 0x10 else if t == FingerVein then 0x20
            else if t == Iris then 0x40 else if t == Custom then 0x4000_0000 else 0
    ensures FLAG_ALL.bits == 0xFFFF_FFFF && AuthFlagToType(FLAG_ALL) == Unrecognised("All")
  {
  }

  predicate IsSingleFlag(f: Flag) {
    f in {FLAG_PASSWORD, FLAG_FINGERPRINT, FLAG_FACE, FLAG_ACTIVE_DIRECTORY,
          FLAG_UKEY, FLAG_FINGER_VEIN, FLAG_IRIS, FLAG_CUSTOM}
  }

  function MaskOf(flags: seq<Flag>): Mask {
    if flags == [] then 0 else MaskOf(flags[..|flags| - 1]) | flags[|flags| - 1].bits
  }

  lemma MaskStep(flags: seq<Flag>, i: nat)
    requires i < |flags|
    ensures MaskOf(flags[..i + 1]) == MaskOf(flags[..i]) | flags[i].bits
  {
    assert flags[..i + 1][..i] == flags[..i];
  }

  lemma OrIntersects(f: Mask, a: Mask, b: Mask)
    ensures f & (a | b) != 0 <==> f & a != 0 || f & b != 0
  {
  }

  lemma SingleFlagsIntersect(f: Flag, g: Flag)
    requires IsSingleFlag(f) && IsSingleFlag(g)
    ensures f.bits & g.bits != 0 <==> f == g
  {
  }

  /** Testing a bit of a mask built from single-bit flags is testing membership of the list. */
  lemma {:induction false} MaskMembership(f: Flag, flags: seq<Flag>)
    requires IsSingleFlag(f) && forall g | g in flags :: IsSingleFlag(g)
    ensures f.bits & MaskOf(flags) != 0 <==> f in flags
  {
    if flags == [] {
      assert f.bits & 0 == 0;
    } else {
      var init, last := flags[..|flags| - 1], flags[|flags| - 1];
      MaskMembership(f, init);
      OrIntersects(f.bits, MaskOf(init), last.bits);
      SingleFlagsIntersect(f, last);
      assert flags == init + [last];
    }
  }

  datatype InputType = Keyboard | Finger | CameraFace | CameraIris | CustomInput

  function AuthTypeToInputType(t: AuthType): InputType {
    match t
    case Fingerprint => Finger
    case FingerVein => Finger
    case Face => CameraFace
    case Iris => CameraIris
    case Custom => CustomInput
    case _ => Keyboard
  }

  /** Larger runs first at the client; an unknown type gets the largest machine integer. */
  function AuthTypeToPriority(t: AuthType): int {
    match t
    case Password => 8
    case ActiveDirectory => 7
    case UKey => 6
    case Fingerprint => 5
    case FingerVein => 4
    case Face => 3
    case Iris => 2
    case Custom => 1
    case Unrecognised(_) => 0x7FFF_FFFF_FFFF_FFFF
  }

  /** The priorities on the wire, and the device each factor is put in with. */
  lemma FactorsOnTheWire(t: AuthType)
    requires !t.Unrecognised?
    ensures 1 <= AuthTypeToPriority(t) <= 8
    ensures t == [Custom, Iris, Face, FingerVein, Fingerprint, UKey, ActiveDirectory, Password][
                   AuthTypeToPriority(t) - 1]
    ensures AuthTypeToInputType(t) ==
            if t in {Password, ActiveDirectory, UKey} then Keyboard else if t in {Fingerprint, FingerVein} then Finger
            else if t == Face then CameraFace else if t == Iris then CameraIris else CustomInput
  {
  }

  datatype Status =
    | Success | Failure | Cancel | Timeout | Error | Verifying | Exception
    | Prompt | Started | Ended | Locked | Recover | Unlocked | Unknown

  /** The integer a status travels as; the numbering is positional in the daemon. */
  function StatusCode(s: Status): int {
    match s
    case Success => 0
    case Failure => 1
    case Cancel => 2
    case Timeout => 3
    case Error => 4
    case Verifying => 5
    case Exception => 6
    case Prompt => 7
    case Started => 8
    case Ended => 9
    case Locked => 10
    case Recover => 11
    case Unlocked => 12
    case Unknown => 13
  }

  /** The status codes on the wire, in the order in which daemon and client list them. */
  lemma CodesOnTheWire(s: Status)
    ensures [Success, Failure, Cancel, Timeout, Error, Verifying, Exception, Prompt, Started, Ended,
             Locked, Recover, Unlocked, Unknown][StatusCode(s)] == s
  {
  }

  /** The statuses no factor counts towards a verdict. */
  predicate ShouldIgnore(s: Status) {
    s.Verifying? || s.Prompt? || s.Locked? || s.Ended? || s.Started?
  }
}
