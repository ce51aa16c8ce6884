/** Numeric runtime settings: what the write-side normalisers store and what the read-side
    readers make of it. `usize` is 64 bits wide. */
module Operations {
  import opened Text
  import opened Decimal

  const MAX_DISPATCH_INTERVAL := 164
  const MAX_CONCURRENCY := 16
  const MAX_CLUSTER_CONCURRENCY := 65536
  const DEFAULT_DISPATCH_INTERVAL := 5
  const DEFAULT_DISPATCH_IDLE_MAX := 60
  const MIB := 1024 * 1024

  /** The families of numeric settings, by the pair of normaliser and reader they use. */
  datatype Setting =
    | Interval           // poll intervals, entry and depth limits
    | DispatchInterval
    | ClusterConcurrency
    | Concurrency
    | QueueCapacity
    | Attempts
    | Bytes
    | AvatarSize
    | Dimension
    | LowestSpeed        // bytes per second, zero for none
    | SpeedLimit         // megabytes per second, zero for none
    | ListLimit
    | StreamTtl

  /** The least and the greatest number a normaliser accepts. */
  function Least(k: Setting): nat {
    match k
    case ClusterConcurrency => 0
    case LowestSpeed => 0
    case SpeedLimit => 0
    case StreamTtl => 5 * 60
    case _ => 1
  }

  function Greatest(k: Setting): nat {
    match k
    case DispatchInterval => MAX_DISPATCH_INTERVAL
    case ClusterConcurrency => MAX_CLUSTER_CONCURRENCY
    case Concurrency => MAX_CONCURRENCY
    case Attempts => I32_MAX
    case AvatarSize => 16 * MIB
    case Dimension => 16384
    case ListLimit => 1000
    case StreamTtl => 24 * 60 * 60
    case _ => U64_MAX
  }

  /** The number in a raw value: trimmed, then read with the width of the write side. */
  function ParseForWrite(k: Setting, raw: string): Option<int> {
    if k.Attempts? then ParseSigned(Trim(raw))
    else match ParseUnsigned(Trim(raw), U64_MAX)
      case Some(n) => Some(n)
      case None => None
  }

  /** The normaliser: parse, check the range, print. */
  function Normalize(k: Setting, raw: string): Option<string> {
    match ParseForWrite(k, raw)
    case None => None
    case Some(n) => if Least(k) <= n <= Greatest(k) then Some(Print(n)) else None
  }

  function ReadPositive(raw: Option<string>, default: nat): nat {
    match raw
    case None => default
    case Some(text) =>
      match ParseUnsigned(Trim(text), U64_MAX)
      case Some(n) => if n > 0 then n else default
      case None => default
  }

  function ReadNonNegative(raw: Option<string>, default: nat): nat {
    match raw
    case None => default
    case Some(text) =>
      match ParseUnsigned(Trim(text), U64_MAX)
      case Some(n) => n
      case None => default
  }

  function ReadPositiveI32(raw: Option<string>, default: nat): nat {
    match raw
    case None => default
    case Some(text) =>
      match ParseSigned(Trim(text))
      case Some(n) => if n > 0 then n else default
      case None => default
  }

  /** Readers with both bounds, for `u64` and `u32` by the width given. */
  function ReadBounded(raw: Option<string>, default: nat, width: nat, least: nat, greatest: nat): nat {
    match raw
    case None => default
    case Some(text) =>
      match ParseUnsigned(Trim(text), width)
      case Some(n) => if least <= n <= greatest then n else default
      case None => default
  }

  /** Byte limits are handed on as `i64`; what does not fit gives the default. */
  function ReadBytes(raw: Option<string>, default: nat): nat {
    var n := ReadPositive(raw, default);
    if n <= I64_MAX then n else if default <= I64_MAX then default else I64_MAX
  }

  function Min(a: nat, b: nat): nat { if a < b then a else b }
  function Max(a: nat, b: nat): nat { if a < b then b else a }

  function ReadConcurrency(raw: Option<string>, default: nat): nat {
    Min(ReadPositive(raw, default), MAX_CONCURRENCY)
  }

  /** A cluster quota; zero, like an invalid value, means there is none. */
  function ReadClusterQuota(raw: Option<string>): Option<nat> {
    match raw
    case None => None
    case Some(text) =>
      match Normalize(ClusterConcurrency, text)
      case None => None
      case Some(normal) =>
        match ParseUnsigned(normal, U64_MAX)
        case Some(n) => if n > 0 then Some(n) else None
        case None => None
  }

  /** The dispatch poll interval and its idle maximum, read together. */
  function PollInterval(interval: Option<string>): nat {
    Min(ReadPositive(interval, DEFAULT_DISPATCH_INTERVAL), MAX_DISPATCH_INTERVAL)
  }

  function PollIdleMax(interval: Option<string>, idleMax: Option<string>): nat {
    Max(Min(ReadPositive(idleMax, DEFAULT_DISPATCH_IDLE_MAX), MAX_DISPATCH_INTERVAL),
        PollInterval(interval))
  }

  /** A lowest speed; zero means there is none. */
  function ReadLowestSpeed(raw: Option<string>, default: nat): Option<nat> {
    var n := ReadNonNegative(raw, default);
    if n > 0 then Some(n) else None
  }

  /** A speed limit in bytes; zero means there is none, and so does a number of megabytes whose
      bytes do not fit 64 bits. */
  function ReadSpeedLimit(raw: Option<string>, default: nat): Option<nat> {
    var n := ReadNonNegative(raw, default);
    if n == 0 then None else if n * MIB <= U64_MAX then Some(n * MIB) else None
  }

  /** The reader that belongs to a setting; `None` is the absence of a limit. */
  function Read(k: Setting, raw: Option<string>, default: nat): Option<nat> {
    match k
    case Interval => Some(ReadPositive(raw, default))
    case DispatchInterval => Some(Min(ReadPositive(raw, default), MAX_DISPATCH_INTERVAL))
    case ClusterConcurrency => ReadClusterQuota(raw)
    case Concurrency => Some(ReadConcurrency(raw, default))
    case QueueCapacity => Some(ReadPositive(raw, default))
    case Attempts => Some(ReadPositiveI32(raw, default))
    case Bytes => Some(ReadBytes(raw, default))
    case AvatarSize => Some(ReadBounded(raw, default, U64_MAX, Least(k), Greatest(k)))
    case Dimension => Some(ReadBounded(raw, default, U32_MAX, Least(k), Greatest(k)))
    case LowestSpeed => ReadLowestSpeed(raw, default)
    case SpeedLimit => ReadSpeedLimit(raw, default)
    case ListLimit => Some(ReadBounded(raw, default, U64_MAX, Least(k), Greatest(k)))
    case StreamTtl => Some(ReadBounded(raw, default, U64_MAX, Least(k), Greatest(k)))
  }

  /** What an administrator means by a number: for the settings with an "off" zero is that, and
      the speed limit is given in megabytes. */
  function Meaning(k: Setting, n: nat): Option<nat> {
    if (k.ClusterConcurrency? || k.LowestSpeed? || k.SpeedLimit?) && n == 0 then None
    else Some(if k.SpeedLimit? then n * MIB else n)
  }

  /** The numbers a reader can represent. */
  predicate Representable(k: Setting, n: nat) {
    (k.Bytes? ==> n <= I64_MAX) && (k.SpeedLimit? ==> n * MIB <= U64_MAX)
  }

  /** What a normaliser stores is canonical, re-parses to the number that was written, and reads
      back as what that number means if and only if the reader can represent it: a byte limit up
      to the `i64` maximum, a speed limit as long as its bytes fit 64 bits, any other always. */
  lemma StoredReadsBack(k: Setting, raw: string, default: nat)
    requires Normalize(k, raw).Some?
    ensures ParseForWrite(k, raw).Some? && ParseForWrite(k, raw).value >= 0
    ensures var stored := Normalize(k, raw).value;
            var n: nat := ParseForWrite(k, raw).value;
            && ParseForWrite(k, stored) == Some(n)
            && Normalize(k, stored) == Some(stored)
            && (Read(k, Some(stored), default) == Meaning(k, n) <==> Representable(k, n))
  {
    hide Decimal.Print, Decimal.ParseUnsigned, Decimal.ParseSigned, Text.Trim;
    var n: nat := ParseForWrite(k, raw).value;
    PrintThenParse(n, U64_MAX);
    if n <= U32_MAX {
      PrintThenParse(n, U32_MAX);
    }
  }

  /** What becomes of the others: a byte limit falls back to the default, a speed limit is
      switched off. */
  lemma BeyondTheReader(raw: string, default: nat)
    ensures Normalize(Bytes, raw).Some? && !Representable(Bytes, ParseForWrite(Bytes, raw).value) ==>
              Read(Bytes, Normalize(Bytes, raw), default) == Some(Min(default, I64_MAX))
    ensures Normalize(SpeedLimit, raw).Some? && !Representable(SpeedLimit, ParseForWrite(SpeedLimit, raw).value) ==>
              Read(SpeedLimit, Normalize(SpeedLimit, raw), default) == None
  {
    hide Decimal.Print, Decimal.ParseUnsigned, Decimal.ParseSigned, Text.Trim;
    if Normalize(Bytes, raw).Some? {
      PrintThenParse(ParseForWrite(Bytes, raw).value, U64_MAX);
    }
    if Normalize(SpeedLimit, raw).Some? {
      PrintThenParse(ParseForWrite(SpeedLimit, raw).value, U64_MAX);
    }
  }

  const FIRST_LOST_SPEED: nat := 0x1000_0000_0000

  /** The least accepted speed limit that switches limiting off, 2^44 megabytes per second, and
      the greatest one that does not. */
  lemma AcceptedLimitSwitchesOff(default: nat)
    ensures var raw := Print(FIRST_LOST_SPEED);
            Normalize(SpeedLimit, raw) == Some(raw) && Read(SpeedLimit, Some(raw), default) == None
    ensures var raw := Print(FIRST_LOST_SPEED - 1);
            Normalize(SpeedLimit, raw) == Some(raw)
            && Read(SpeedLimit, Some(raw), default) == Some((FIRST_LOST_SPEED - 1) * MIB)
  {
    hide Decimal.Print, Decimal.ParseUnsigned, Decimal.ParseSigned, Text.Trim;
    PrintThenParse(FIRST_LOST_SPEED, U64_MAX);
    PrintThenParse(FIRST_LOST_SPEED - 1, U64_MAX);
  }

  /** Two accepted texts are stored alike exactly when they denote the same number. */
  lemma StoredIsCanonical(k: Setting, a: string, b: string)
    requires Normalize(k, a).Some? && Normalize(k, b).Some?
    ensures Normalize(k, a) == Normalize(k, b) <==> ParseForWrite(k, a) == ParseForWrite(k, b)
  {
    hide Decimal.Print, Decimal.ParseUnsigned, Decimal.ParseSigned, Text.Trim;
    StoredReadsBack(k, a, 0);
    StoredReadsBack(k, b, 0);
  }

  /** Whatever the store holds, the polling bounds are ordered and capped. */
  lemma DispatchBounds(interval: Option<string>, idleMax: Option<string>)
    ensures 1 <= PollInterval(interval) <= PollIdleMax(interval, idleMax) <= 164
  {
  }

  /** A stored idle maximum is raised only to the poll interval. */
  lemma IdleMaxReadsBack(interval: Option<string>, raw: string)
    requires Normalize(DispatchInterval, raw).Some?
    ensures ParseForWrite(DispatchInterval, raw).Some? && ParseForWrite(DispatchInterval, raw).value >= 0
    ensures PollIdleMax(interval, Normalize(DispatchInterval, raw)) ==
            Max(ParseForWrite(DispatchInterval, raw).value, PollInterval(interval))
  {
    hide Decimal.Print, Decimal.ParseUnsigned, Decimal.ParseSigned, Text.Trim;
    StoredReadsBack(DispatchInterval, raw, DEFAULT_DISPATCH_IDLE_MAX);
  }

  /** Whatever the store holds, concurrency stays in its range and a quota is absent or in
      its own. */
  lemma ConcurrencyBounds(raw: Option<string>, default: nat)
    requires 1 <= default
    ensures 1 <= ReadConcurrency(raw, default) <= 16
    ensures match ReadClusterQuota(raw)
            case None => true
            case Some(n) => 1 <= n <= 65536
  {
    hide Decimal.ParseSigned, Text.Trim;
    if raw.Some? && Normalize(ClusterConcurrency, raw.value).Some? {
      StoredReadsBack(ClusterConcurrency, raw.value, 0);
    }
  }

  // ---- in literal numbers --------------------------------------------------------------

  /** The accepted numbers of each family. */
  predicate InRange(k: Setting, n: int) {
    match k
    case Interval => 1 <= n <= 18446744073709551615
    case DispatchInterval => 1 <= n <= 164
    case ClusterConcurrency => 0 <= n <= 65536
    case Concurrency => 1 <= n <= 16
    case QueueCapacity => 1 <= n <= 18446744073709551615
    case Attempts => 1 <= n <= 2147483647
    case Bytes => 1 <= n <= 18446744073709551615
    case AvatarSize => 1 <= n <= 16777216
    case Dimension => 1 <= n <= 16384
    case LowestSpeed => 0 <= n <= 18446744073709551615
    case SpeedLimit => 0 <= n <= 18446744073709551615
    case ListLimit => 1 <= n <= 1000
    case StreamTtl => 300 <= n <= 86400
  }

  /** Which texts are accepted: digits, with a plus sign or without and spaces around, of a number
      in the range; and what is stored is that number in digits. */
  lemma AcceptedMeans(k: Setting, raw: string, digits: string)
    requires digits != "" && AllDigits(digits) && (Trim(raw) == digits || Trim(raw) == "+" + digits)
    ensures Normalize(k, raw) == if InRange(k, Value(digits)) then Some(Print(Value(digits))) else None
  {
    hide Decimal.Print, Decimal.ParseUnsigned, Decimal.ParseSigned, Decimal.Value, Text.Trim;
    ParsedMeans(digits, U64_MAX);
  }

  /** Every other text is refused, a negative number among them. */
  lemma OtherTextsAreRefused(k: Setting, raw: string)
    requires var t := Trim(raw);
             && (t == "" || !AllDigits(t))
             && (t != "" && t[0] == '+' ==> t[1..] == "" || !AllDigits(t[1..]))
    ensures Normalize(k, raw) == None
  {
    hide Decimal.Print, Decimal.ParseUnsigned, Decimal.ParseSigned, Decimal.Value, Text.Trim;
    var t := Trim(raw);
    if t != "" && t[0] == '-' && t[1..] != "" && AllDigits(t[1..]) {
      ParsedMeans(t[1..], U64_MAX);
      assert t == "-" + t[1..];
    } else {
      OthersAreRefused(t, U64_MAX);
    }
  }

  /** What a reader does without a usable value: the default, held to the reader's bounds where it
      has a cap; a cluster quota has no default. */
  lemma FallbackMeans(k: Setting, raw: Option<string>, default: nat)
    requires raw == None || ParseUnsigned(Trim(raw.value), 18446744073709551615) == None
    ensures Read(k, raw, default) ==
            match k
            case ClusterConcurrency => None
            case DispatchInterval => Some(if default <= 164 then default else 164)
            case Concurrency => Some(if default <= 16 then default else 16)
            case Bytes => Some(if default <= 9223372036854775807 then default else 9223372036854775807)
            case LowestSpeed => if default > 0 then Some(default) else None
            case SpeedLimit =>
              (if 0 < default && default * 1048576 <= 18446744073709551615 then Some(default * 1048576) else None)
            case _ => Some(default)
  {
    hide Decimal.Print, Decimal.Value, Text.Trim;
  }

  /** The polling defaults. */
  lemma PollDefaults()
    ensures PollInterval(None) == 5 && PollIdleMax(None, None) == 60
  {
  }

  /** What a reader makes of any stored number of 64 bits, accepted or not. */
  lemma RawNumberMeans(k: Setting, raw: string, digits: string, default: nat)
    requires digits != "" && AllDigits(digits) && (Trim(raw) == digits || Trim(raw) == "+" + digits)
    requires Value(digits) <= 18446744073709551615
    ensures var n := Value(digits);
            Read(k, Some(raw), default) ==
            match k
            case ClusterConcurrency => if 1 <= n <= 65536 then Some(n) else None
            case LowestSpeed => if n > 0 then Some(n) else None
            case SpeedLimit => if 0 < n && n * 1048576 <= 18446744073709551615 then Some(n * 1048576) else None
            case Bytes => Some(if 1 <= n <= 9223372036854775807 then n
                               else if default <= 9223372036854775807 then default else 9223372036854775807)
            case DispatchInterval => Some(var m := if n > 0 then n else default; if m <= 164 then m else 164)
            case Concurrency => Some(var m := if n > 0 then n else default; if m <= 16 then m else 16)
            case _ => Some(if InRange(k, n) then n else default)
  {
    hide Decimal.Print, Decimal.ParseUnsigned, Decimal.ParseSigned, Decimal.Value, Text.Trim;
    var n := Value(digits);
    ParsedMeans(digits, U64_MAX);
    ParsedMeans(digits, U32_MAX);
    PrintThenParse(n, U64_MAX);
  }
}
