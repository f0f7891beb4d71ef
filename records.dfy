/** Key records and the status label derived from them (script.js). */
module Records {
  import opened Wrappers
  import Duration

  /** One generated licence key and its metadata. Timestamps are epoch
      milliseconds; `duration` is in minutes. `hwid`, `used` and `usedAt` are
      set by some other program; this page only creates them empty. The HWID
      is kept as UTF-16 code units, the unit JavaScript string operations
      count in. */
  datatype KeyRecord = KeyRecord(
    key: string,
    createdAt: int,
    expiresAt: int,
    duration: int,
    hwid: Option<Utf16>,
    used: bool,
    usedAt: Option<int>)

  /** A UTF-16 code unit, and a JavaScript string as a sequence of them. */
  newtype CodeUnit = x: int | 0 <= x < 0x1_0000
  type Utf16 = seq<CodeUnit>

  /** Milliseconds in a minute, `60 * 1000`. */
  const MillisPerMinute: int := 60 * 1000

  /** The record the generate handler builds for a key made at time `now`:
      it lives exactly `duration` minutes, starts unused with no HWID and no
      activation time, and so is never shown as used. */
  function NewKeyRecord(key: string, now: int, duration: int): (r: KeyRecord)
    ensures r.key == key && r.createdAt == now && r.duration == duration
    ensures r.expiresAt - r.createdAt == duration * MillisPerMinute
    ensures !r.used && r.hwid == None && r.usedAt == None
    ensures forall t :: StatusOf(t, r.expiresAt, r.used) != Used
  {
    KeyRecord(key, now, now + duration * MillisPerMinute, duration, None, false, None)
  }

  // ---------------------------------------------------------------------
  // Status

  /** The three statuses a record is shown with. */
  datatype Status = Expired | Used | Active

  /** Status precedence: expired beats used, used beats active. A record is
      expired only strictly after its expiry instant. */
  function StatusOf(now: int, expiresAt: int, used: bool): (s: Status)
    ensures s == Expired <==> now > expiresAt
    ensures s == Used <==> now <= expiresAt && used
    ensures s == Active <==> now <= expiresAt && !used
  {
    if now > expiresAt then Expired else if used then Used else Active
  }

  /** The status name, the label and the CSS class of each status. */
  function Name(s: Status): string {
    match s
    case Expired => "expired"
    case Used => "used"
    case Active => "active"
  }

  function Text(s: Status): string {
    match s
    case Expired => "Истек"
    case Used => "Используется"
    case Active => "Активен"
  }

  function Class(s: Status): string {
    match s
    case Expired => "status-expired"
    case Used => "status-used"
    case Active => "status-active"
  }

  /** `status`, `statusText` and `statusClass` of `displayKeys`: three
      separate conditional expressions over the same two tests. */
  function StatusName(now: int, r: KeyRecord): (name: string)
    ensures name == Name(StatusOf(now, r.expiresAt, r.used))
  {
    var isExpired := now > r.expiresAt;
    if isExpired then "expired" else if r.used then "used" else "active"
  }

  function StatusText(now: int, r: KeyRecord): (text: string)
    ensures text == Text(StatusOf(now, r.expiresAt, r.used))
  {
    var isExpired := now > r.expiresAt;
    if isExpired then "Истек" else if r.used then "Используется" else "Активен"
  }

  function StatusClass(now: int, r: KeyRecord): (cls: string)
    ensures cls == Class(StatusOf(now, r.expiresAt, r.used))
    ensures cls == "status-" + StatusName(now, r)
  {
    var isExpired := now > r.expiresAt;
    if isExpired then "status-expired" else if r.used then "status-used" else "status-active"
  }

  /** The label and the class each identify the status, so the three
      derivations never disagree. */
  lemma LabelsIdentifyStatus(s: Status, t: Status)
    ensures Name(s) == Name(t) ==> s == t
    ensures Text(s) == Text(t) ==> s == t
    ensures Class(s) == Class(t) ==> s == t
  {
    if s != t {
      assert Name(s)[0] != Name(t)[0];
      assert Text(s)[0] != Text(t)[0] || |Text(s)| != |Text(t)|;
      assert Class(s)[7] != Class(t)[7];
    }
  }

  /** Expiry is permanent: once a record is expired it stays expired, and
      before that its status does not change with time. */
  lemma StatusOverTime(t1: int, t2: int, expiresAt: int, used: bool)
    requires t1 <= t2
    ensures StatusOf(t1, expiresAt, used) == Expired ==> StatusOf(t2, expiresAt, used) == Expired
    ensures StatusOf(t2, expiresAt, used) in {StatusOf(t1, expiresAt, used), Expired}
  {
  }

  /** A fresh record is active from its creation until its expiry instant
      inclusive, and expired afterwards; it is never shown as used. Its
      lifetime is exactly its duration in milliseconds. */
  lemma NewKeyRecordLifetime(key: string, now: int, duration: int, t: int)
    ensures NewKeyRecord(key, now, duration).expiresAt - now == duration * MillisPerMinute
    ensures StatusOf(t, NewKeyRecord(key, now, duration).expiresAt, NewKeyRecord(key, now, duration).used)
      == if t <= now + duration * MillisPerMinute then Active else Expired
  {
  }

  // ---------------------------------------------------------------------
  // One entry of the key list

  /** What one card of the key list shows: the key, whether the card is
      marked expired, the status class and label, the timestamps (before
      date formatting), the duration label, the first 16 UTF-16 code units
      of the HWID when it is set and non-empty, and the activation time when it is
      set and non-zero (JavaScript treats "" and 0 as false). */
  datatype Row = Row(
    key: string,
    expired: bool,
    statusClass: string,
    statusText: string,
    createdAt: int,
    expiresAt: int,
    durationText: string,
    hwidShown: Option<Utf16>,
    usedAtShown: Option<int>)

  /** `hwid.substring(0, 16)`: at most the first 16 code units, which may
      split a surrogate pair. */
  function Prefix16(s: Utf16): (p: Utf16)
    ensures |p| == if |s| < 16 then |s| else 16
    ensures p <= s
  {
    if |s| <= 16 then s else s[..16]
  }

  /** The card of one record at time `now`. */
  function RowOf(now: int, r: KeyRecord): (row: Row)
    ensures row.expired <==> StatusOf(now, r.expiresAt, r.used) == Expired
    ensures row.statusText == Text(StatusOf(now, r.expiresAt, r.used))
    ensures row.statusClass == Class(StatusOf(now, r.expiresAt, r.used))
    ensures row.durationText == Duration.DurationText(r.duration)
    ensures row.key == r.key && row.createdAt == r.createdAt && row.expiresAt == r.expiresAt
    ensures row.hwidShown.Some? <==> r.hwid.Some? && r.hwid.value != []
    ensures row.hwidShown.Some? ==> row.hwidShown == Some(Prefix16(r.hwid.value))
    ensures row.usedAtShown.Some? <==> r.usedAt.Some? && r.usedAt.value != 0
    ensures row.usedAtShown.Some? ==> row.usedAtShown == r.usedAt
  {
    Row(
      r.key,
      now > r.expiresAt,
      StatusClass(now, r),
      StatusText(now, r),
      r.createdAt,
      r.expiresAt,
      Duration.DurationText(r.duration),
      if r.hwid.Some? && r.hwid.value != [] then Some(Prefix16(r.hwid.value)) else None,
      if r.usedAt.Some? && r.usedAt.value != 0 then r.usedAt else None)
  }
}
