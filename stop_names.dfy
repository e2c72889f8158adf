/** The shared library of the repository (src/lib.rs): the region/position
    lookups of `InterRegional` and the integer/string tables of the two enums
    that the serde visitors and serializers implement. */
module StopNames {
  import opened Options

  // ---------------------------------------------------------------------------
  // Enums and their codecs
  // ---------------------------------------------------------------------------

  datatype R09Type = R14 | R16 | R18

  datatype TelegramType = PreRegistration | Registration | DeRegistration | DoorClosed

  /** The explicit discriminant of each `R09Types` variant (`R14 = 14`, ...). */
  function R09Discriminant(t: R09Type): nat
  {
    match t
    case R14 => 14
    case R16 => 16
    case R18 => 18
  }

  /** `Serialize for R09Types`: the variant as a string. */
  function R09ToStr(t: R09Type): string
  {
    match t
    case R14 => "R09.14"
    case R16 => "R09.16"
    case R18 => "R09.18"
  }

  /** `R09TypesVisitor::visit_str`: accepts exactly the strings the serializer
      writes and returns the variant that writes each of them. */
  function R09FromStr(s: string): (r: Option<R09Type>)
    ensures forall t :: r == Some(t) <==> R09ToStr(t) == s
  {
    if s == "R09.14" then Some(R14)
    else if s == "R09.16" then Some(R16)
    else if s == "R09.18" then Some(R18)
    else None
  }

  /** `R09TypesVisitor::visit_u64`: accepts exactly the three discriminants. */
  function R09FromU64(n: nat): (r: Option<R09Type>)
    ensures forall t :: r == Some(t) <==> R09Discriminant(t) == n
    ensures r.Some? <==> n == 14 || n == 16 || n == 18
  {
    match n
    case 14 => Some(R14)
    case 16 => Some(R16)
    case 18 => Some(R18)
    case _ => None
  }

  /** Serializing and then deserializing an `R09Types` gives it back, through
      both the string and the integer path. */
  lemma R09RoundTrip(t: R09Type)
    ensures R09FromStr(R09ToStr(t)) == Some(t)
    ensures R09FromU64(R09Discriminant(t)) == Some(t)
  {
  }

  /** The explicit discriminant of each `TelegramType` variant. */
  function TelegramTypeDiscriminant(t: TelegramType): nat
  {
    match t
    case PreRegistration => 0
    case Registration => 1
    case DeRegistration => 2
    case DoorClosed => 3
  }

  /** `Serialize for TelegramType`: the discriminant written as one decimal digit. */
  function TelegramTypeToStr(t: TelegramType): (s: string)
    ensures |s| == 1 && s[0] as int == '0' as int + TelegramTypeDiscriminant(t)
  {
    match t
    case PreRegistration => "0"
    case Registration => "1"
    case DeRegistration => "2"
    case DoorClosed => "3"
  }

  /** The snake_case name of each variant that `visit_str` recognises. */
  function TelegramTypeName(t: TelegramType): string
  {
    match t
    case PreRegistration => "pre_registration"
    case Registration => "registration"
    case DeRegistration => "de_registration"
    case DoorClosed => "door_close"
  }

  /** `TelegramTypeVisitor::visit_str`: accepts exactly the four snake_case
      names, each for its own variant. */
  function TelegramTypeFromStr(s: string): (r: Option<TelegramType>)
    ensures forall t :: r == Some(t) <==> TelegramTypeName(t) == s
  {
    if s == "pre_registration" then Some(PreRegistration)
    else if s == "registration" then Some(Registration)
    else if s == "de_registration" then Some(DeRegistration)
    else if s == "door_close" then Some(DoorClosed)
    else None
  }

  /** `TelegramTypeVisitor::visit_u64`: 0..3 map to the variant with that
      discriminant, every other number is rejected. */
  function TelegramTypeFromU64(n: nat): (r: Option<TelegramType>)
    ensures forall t :: r == Some(t) <==> TelegramTypeDiscriminant(t) == n
    ensures r.Some? <==> n < 4
  {
    match n
    case 0 => Some(PreRegistration)
    case 1 => Some(Registration)
    case 2 => Some(DeRegistration)
    case 3 => Some(DoorClosed)
    case _ => None
  }

  /** The integer path round-trips; the string path does not: what the
      serializer writes is a digit, which `visit_str` rejects. */
  lemma TelegramTypeRoundTrip(t: TelegramType)
    ensures TelegramTypeFromU64(TelegramTypeDiscriminant(t)) == Some(t)
    ensures TelegramTypeFromStr(TelegramTypeToStr(t)) == None
  {
  }

  // ---------------------------------------------------------------------------
  // Region data and lookups
  // ---------------------------------------------------------------------------

  datatype TransmissionPosition = TransmissionPosition(
    dhid: Option<string>,
    name: Option<string>,
    telegramType: TelegramType,
    direction: nat,
    lat: real,
    lon: real)

  datatype RegionMetaInformation = RegionMetaInformation(
    frequency: Option<nat>,
    cityName: Option<string>,
    typeR09: Option<R09Type>)

  /** `date` is the document's timestamp, kept as an opaque number. */
  datatype DocumentMetaInformation = DocumentMetaInformation(
    schemaVersion: string,
    date: nat,
    generator: Option<string>,
    generatorVersion: Option<string>)

  /** Traffic-light id to the transmission positions reported for it. */
  type RegionalTransmissionPositions = map<nat, seq<TransmissionPosition>>

  datatype InterRegional = InterRegional(
    document: DocumentMetaInformation,
    data: map<string, RegionalTransmissionPositions>,
    meta: map<string, RegionMetaInformation>)

  datatype Region = Region(trafficLights: RegionalTransmissionPositions, meta: RegionMetaInformation)

  /** `InterRegional::extract`: a region exists only when both its position
      data and its meta information are present, and it carries exactly those. */
  function Extract(ir: InterRegional, regionName: string): (r: Option<Region>)
    ensures r.Some? <==> regionName in ir.data && regionName in ir.meta
    ensures r.Some? ==> r.value.trafficLights == ir.data[regionName] && r.value.meta == ir.meta[regionName]
  {
    if regionName !in ir.data || regionName !in ir.meta then None
    else Some(Region(ir.data[regionName], ir.meta[regionName]))
  }

  /** `InterRegional::look_up`: the positions of one traffic light of one region. */
  function LookUp(ir: InterRegional, regionName: string, trafficLight: nat): (r: Option<seq<TransmissionPosition>>)
    ensures regionName !in ir.data ==> r == None
    ensures regionName in ir.data ==>
      (r.Some? <==> trafficLight in ir.data[regionName]) &&
      (r.Some? ==> r.value == ir.data[regionName][trafficLight])
  {
    match Map(ir.data, regionName)
    case Some(region) => Map(region, trafficLight)
    case None => None
  }

  /** `HashMap::get`. */
  function Map<K, V>(m: map<K, V>, k: K): Option<V>
  {
    if k in m then Some(m[k]) else None
  }

  /** The linear search of `get_approximate_position`: the first position whose
      telegram type is `DoorClosed`, if any. */
  function FirstDoorClosed(positions: seq<TransmissionPosition>): (r: Option<nat>)
    ensures r.None? <==> forall i :: 0 <= i < |positions| ==> positions[i].telegramType != DoorClosed
    ensures r.Some? ==>
      r.value < |positions| && positions[r.value].telegramType == DoorClosed &&
      forall i :: 0 <= i < r.value ==> positions[i].telegramType != DoorClosed
  {
    if positions == [] then None
    else if positions[0].telegramType == DoorClosed then Some(0)
    else match FirstDoorClosed(positions[1..])
      case None => None
      case Some(i) => Some(i + 1)
  }

  /** `InterRegional::get_approximate_position`: nothing when the lookup fails
      or finds no positions; otherwise the first `DoorClosed` position, and the
      first position when there is none. */
  function GetApproximatePosition(ir: InterRegional, regionName: string, trafficLight: nat)
    : (r: Option<TransmissionPosition>)
    ensures r.None? <==> LookUp(ir, regionName, trafficLight) in {None, Some([])}
    ensures r.Some? ==>
      var positions := LookUp(ir, regionName, trafficLight).value;
      exists k :: 0 <= k < |positions| && r.value == positions[k] &&
        (forall i :: 0 <= i < k ==> positions[i].telegramType != DoorClosed) &&
        (positions[k].telegramType == DoorClosed ||
         (k == 0 && forall i :: 0 <= i < |positions| ==> positions[i].telegramType != DoorClosed))
  {
    match LookUp(ir, regionName, trafficLight)
    case None => None
    case Some(positions) =>
      if |positions| == 0 then None
      else
        match FirstDoorClosed(positions)
        case Some(i) => Some(positions[i])
        case None => Some(positions[0])
  }
}
