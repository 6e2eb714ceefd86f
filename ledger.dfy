/**
 * The ledger rules of src/App.tsx, which still keep one day in the legacy
 * single-session shape `{entrada?, salida?, incidencias?}` in the web
 * storage (`window.storage`, a key/value store of JSON strings): the
 * admissibility of a photo, the update of the day record by one event, the
 * "clocked in" status, and the enumeration of days and months from the
 * store's keys.
 *
 * Clocks and time zones are parameters: a photo's capture time is given as a
 * local day number and the milliseconds since that day's local midnight,
 * "today" as a local day number, and today's storage key as a string.
 */
module Ledger {
  import opened Wrappers
  import opened Strings
  import opened Files
  import Storage

  type Registro = Storage.Registro
  type Incidencia = Storage.Incidencia

  /** A day record in the legacy shape, as `guardarRegistro` writes it. */
  datatype DayRecord = DayRecord(entrada: Option<Registro>, salida: Option<Registro>, incidencias: Option<seq<Incidencia>>)

  /** `{}`. */
  const EMPTY: DayRecord := DayRecord(None, None, None)

  /**
   * A stored JSON string as `JSON.parse` sees it: an object, read through its
   * `entrada`, `salida` and `incidencias` fields (an object without them reads
   * as `EMPTY`); an array; another non-null value (a number, a string or a
   * boolean), on which assigning a field throws in strict mode; `null`, on
   * which reading a field throws; or text that does not parse.
   */
  datatype Stored = Parsed(record: DayRecord) | ArrayValue | Primitive | ParsedNull | Unparsable

  /** A capture time: local day number and milliseconds since local midnight. */
  datatype Instant = Instant(day: int, ms: int)

  /** Why `validarFechaFoto` throws. */
  datatype Rejection =
    | MissingTimestamp   // no `DateTimeOriginal` in the photo
    | WrongDay           // the photo is not from today
    | OutBeforeIn        // a clock-out at or before the stored clock-in
    | UnreadableRecord   // today's stored value is not JSON, or is `null`

  const MS_PER_HOUR: int := 3600000
  const MS_PER_MINUTE: int := 60000

  // ---- validarFechaFoto ----

  /** `s.split(':')`: the pieces between colons (`SplitPiecesHaveNoColon`: none of them holds one). */
  function SplitColon(s: string): (parts: seq<string>)
    ensures |parts| >= 1
    ensures ':' !in s ==> parts == [s]
  {
    if s == [] then [""]
    else
      var rest := SplitColon(s[1..]);
      assert s == [s[0]] + s[1..];
      if s[0] == ':' then [""] + rest else [[s[0]] + rest[0]] + rest[1..]
  }

  /**
   * The clock-in time of day, in milliseconds, that `setHours(horaE, minE, 0, 0)`
   * gives from `hora.split(':').map(Number)`; None when that date is invalid
   * (a field missing or not a number), which makes the comparison false.
   */
  function ClockInMs(hora: string): Option<int> {
    var parts := SplitColon(hora);
    if |parts| >= 2 && AllDigits(parts[0]) && AllDigits(parts[1])
    then Some(DigitsValue(parts[0]) * MS_PER_HOUR + DigitsValue(parts[1]) * MS_PER_MINUTE)
    else None
  }

  /** Reading today's value throws: the text does not parse, or it is `null`. */
  predicate Unreadable(v: Stored) {
    v.Unparsable? || v.ParsedNull?
  }

  /** No piece of `s.split(':')` holds a ':'. */
  lemma {:induction false} SplitPiecesHaveNoColon(s: string)
    ensures forall p :: p in SplitColon(s) ==> ':' !in p
  {
    if s != [] {
      SplitPiecesHaveNoColon(s[1..]);
      var rest := SplitColon(s[1..]);
      if s[0] != ':' {
        assert forall p :: p in rest[1..] ==> p in rest;
      }
    }
  }

  /** Splitting at the first colon: the text before it is the first piece. */
  lemma {:induction false} SplitAtColon(h: string, rest: string)
    requires ':' !in h
    ensures SplitColon(h + ":" + rest) == [h] + SplitColon(rest)
  {
    if h != [] {
      assert (h + ":" + rest)[1..] == h[1..] + ":" + rest;
      SplitAtColon(h[1..], rest);
      assert [h[0]] + h[1..] == h;
    } else {
      assert ("" + ":" + rest)[1..] == rest;
    }
  }

  /** Two digit strings joined by a colon split back into those two. */
  lemma SplitClock(h: string, m: string)
    requires AllDigits(h) && AllDigits(m)
    ensures SplitColon(h + ":" + m) == [h, m]
  {
    NoColonInDigits(h);
    NoColonInDigits(m);
    SplitAtColon(h, m);
  }

  lemma ClockInOfParts(hora: string, h: string, m: string)
    requires AllDigits(h) && AllDigits(m) && SplitColon(hora) == [h, m]
    ensures ClockInMs(hora) == Some(DigitsValue(h) * MS_PER_HOUR + DigitsValue(m) * MS_PER_MINUTE)
  {
    var parts := SplitColon(hora);
    assert parts[0] == h && parts[1] == m;
  }

  /** A clock-in `HH:MM` of digits is read as that many hours and minutes after midnight. */
  lemma ClockInOfDigits(h: string, m: string)
    requires AllDigits(h) && AllDigits(m)
    ensures ClockInMs(h + ":" + m) == Some(DigitsValue(h) * MS_PER_HOUR + DigitsValue(m) * MS_PER_MINUTE)
  {
    SplitClock(h, m);
    ClockInOfParts(h + ":" + m, h, m);
  }

  lemma NoColonInDigits(s: string)
    requires AllDigits(s)
    ensures ':' !in s
  {
  }

  /** A clock-out photo taken at or before the clock-in stored in `stored`. */
  predicate OutNotAfterIn(photo: Instant, stored: Option<Stored>) {
    stored.Some? && stored.value.Parsed? && stored.value.record.entrada.Some? &&
    var t := ClockInMs(stored.value.record.entrada.value.hora);
    t.Some? && photo.ms <= t.value
  }

  /**
   * `validarFechaFoto(file, tipo)`: `photo` is the photo's `DateTimeOriginal`,
   * `today` the local day number now, `stored` today's stored value (None
   * when absent). On success the capture time is returned unchanged.
   */
  function ValidarFechaFoto(photo: Option<Instant>, tipo: Tipo, today: int, stored: Option<Stored>): (r: Result<Instant, Rejection>)
    ensures r == Err(MissingTimestamp) <==> photo.None?
    ensures r == Err(WrongDay) <==> photo.Some? && photo.value.day != today
    ensures r.Ok? ==> photo == Some(r.value) && r.value.day == today
    ensures photo.Some? && photo.value.day == today && tipo != Salida ==> r.Ok?
    ensures r == Err(OutBeforeIn) <==>
      photo.Some? && photo.value.day == today && tipo == Salida && OutNotAfterIn(photo.value, stored)
    ensures r == Err(UnreadableRecord) <==>
      photo.Some? && photo.value.day == today && tipo == Salida && stored.Some? && Unreadable(stored.value)
  {
    if photo.None? then Err(MissingTimestamp)
    else if photo.value.day != today then Err(WrongDay)
    else if tipo == Salida && stored.Some? then
      match stored.value
      case Unparsable => Err(UnreadableRecord)
      case ParsedNull => Err(UnreadableRecord)
      case ArrayValue => Ok(photo.value)
      case Primitive => Ok(photo.value)
      case Parsed(data) =>
        if data.entrada.Some? then
          match ClockInMs(data.entrada.value.hora)
          case None => Ok(photo.value)
          case Some(t) => if photo.value.ms <= t then Err(OutBeforeIn) else Ok(photo.value)
        else Ok(photo.value)
    else Ok(photo.value)
  }

  /**
   * A day clocked in at 09:00: a clock-out photo taken at 08:30 is rejected,
   * one taken at 09:00 exactly is rejected, and one taken at 17:00 is accepted.
   */
  lemma ClockOutScenario(today: int)
    ensures var stored := Some(Parsed(DayRecord(Some(Storage.Registro("09:00", "a")), None, None)));
      ValidarFechaFoto(Some(Instant(today, 8 * MS_PER_HOUR + 30 * MS_PER_MINUTE)), Salida, today, stored) == Err(OutBeforeIn) &&
      ValidarFechaFoto(Some(Instant(today, 9 * MS_PER_HOUR)), Salida, today, stored) == Err(OutBeforeIn) &&
      ValidarFechaFoto(Some(Instant(today, 17 * MS_PER_HOUR)), Salida, today, stored) == Ok(Instant(today, 17 * MS_PER_HOUR))
  {
    assert "09:00" == "09" + ":" + "00";
    ClockInOfDigits("09", "00");
    assert DigitsValue("09") == 9 by {
      assert "09"[..1] == "0";
    }
    assert DigitsValue("00") == 0 by {
      assert "00"[..1] == "0";
    }
    assert ClockInMs("09:00") == Some(9 * MS_PER_HOUR);
  }

  // ---- guardarRegistro ----

  /**
   * The record `guardarRegistro` updates: the stored object, or `{}` when
   * nothing is stored or the text does not parse. (A stored array, `null` or
   * other non-object value is handled apart, by `GuardarRegistro`.)
   */
  function Current(stored: Option<Stored>): DayRecord
    requires stored.None? || stored.value.Parsed? || stored.value.Unparsable?
  {
    if stored.Some? && stored.value.Parsed? then stored.value.record else EMPTY
  }

  /** The record after one event: an incident is appended; a clock-in or clock-out overwrites that field. */
  function Recorded(data: DayRecord, tipo: Tipo, hora: string, foto: string, nota: string): DayRecord {
    match tipo
    case Incidencia => data.(incidencias := Some(data.incidencias.GetOr([]) + [Storage.Incidencia(hora, foto, nota)]))
    case Entrada => data.(entrada := Some(Storage.Registro(hora, foto)))
    case Salida => data.(salida := Some(Storage.Registro(hora, foto)))
  }

  /**
   * Recording an incident appends it after the earlier ones (a missing list
   * counts as empty) and leaves the clock-in and clock-out as they were.
   */
  lemma IncidentAppended(data: DayRecord, hora: string, foto: string, nota: string)
    ensures var r := Recorded(data, Incidencia, hora, foto, nota);
      r.entrada == data.entrada && r.salida == data.salida && r.incidencias.Some? &&
      |r.incidencias.value| == |data.incidencias.GetOr([])| + 1 &&
      r.incidencias.value[..|r.incidencias.value| - 1] == data.incidencias.GetOr([]) &&
      r.incidencias.value[|r.incidencias.value| - 1] == Storage.Incidencia(hora, foto, nota)
  {
    var r := Recorded(data, Incidencia, hora, foto, nota);
    assert r.incidencias.value == data.incidencias.GetOr([]) + [Storage.Incidencia(hora, foto, nota)];
  }

  /** Recording a clock-in or clock-out replaces that stamp and nothing else. */
  lemma StampOverwritten(data: DayRecord, tipo: Tipo, hora: string, foto: string, nota: string)
    requires tipo != Incidencia
    ensures var r := Recorded(data, tipo, hora, foto, nota);
      r.incidencias == data.incidencias &&
      (tipo == Entrada ==> r.entrada == Some(Storage.Registro(hora, foto)) && r.salida == data.salida) &&
      (tipo == Salida ==> r.salida == Some(Storage.Registro(hora, foto)) && r.entrada == data.entrada)
  {
  }

  // ---- verificarEstadoHoy ----

  /**
   * `verificarEstadoHoy`: the "clocked in" flag after re-reading today's
   * value, `previous` being the flag before. No stored value leaves it; a
   * value that cannot be read clears it; otherwise it is "clock-in present
   * and clock-out absent", which an array or a non-object value never is.
   */
  function EstadoHoy(previous: bool, stored: Option<Stored>): (dentro: bool)
    ensures stored.None? ==> dentro == previous
    ensures stored.Some? && !stored.value.Parsed? ==> !dentro
    ensures stored.Some? && stored.value.Parsed? ==>
      (dentro <==> stored.value.record.entrada.Some? && stored.value.record.salida.None?)
  {
    match stored
    case None => previous
    case Some(Parsed(data)) => data.entrada.Some? && data.salida.None?
    case Some(_) => false
  }

  /**
   * The status `guardarRegistro` leaves once it re-reads the day: after a
   * clock-out the worker is out; after a clock-in the worker is in unless
   * the day already holds a clock-out (the single-session shape keeps it);
   * an incident leaves the status of the record as it was.
   */
  lemma StatusAfterRecord(previous: bool, data: DayRecord, tipo: Tipo, hora: string, foto: string, nota: string)
    ensures var after := EstadoHoy(previous, Some(Parsed(Recorded(data, tipo, hora, foto, nota))));
      (tipo == Salida ==> !after) &&
      (tipo == Entrada ==> (after <==> data.salida.None?)) &&
      (tipo == Incidencia ==> after == EstadoHoy(previous, Some(Parsed(data))))
  {
  }

  /**
   * A clock-out accepted by `validarFechaFoto` and then recorded closes the
   * day: the status read back is "out", and the record keeps its clock-in.
   */
  lemma AcceptedClockOutCloses(photo: Option<Instant>, today: int, data: DayRecord, hora: string, foto: string, previous: bool)
    requires ValidarFechaFoto(photo, Salida, today, Some(Parsed(data))).Ok?
    ensures !EstadoHoy(previous, Some(Parsed(Recorded(data, Salida, hora, foto, ""))))
    ensures Recorded(data, Salida, hora, foto, "").entrada == data.entrada
    ensures data.entrada.Some? && ClockInMs(data.entrada.value.hora).Some? ==>
      photo.value.ms > ClockInMs(data.entrada.value.hora).value
  {
    StatusAfterRecord(previous, data, Salida, hora, foto, "");
  }

  /** The web storage of the app: every key and its stored value. */
  class WebStorage {
    var items: map<string, Stored>

    constructor ()
      ensures items == map[]
    {
      items := map[];
    }

    function Get(key: string): (stored: Option<Stored>)
      reads this
      ensures stored.Some? <==> key in items
      ensures key in items ==> stored.value == items[key]
    {
      if key in items then Some(items[key]) else None
    }

    /**
     * `guardarRegistro(tipo, hora, foto, nota)` under today's key `hoy`: the
     * day's record is read, updated in place by the event and stored whole.
     * A stored `null` or other non-object value makes the update throw, and
     * nothing is written; a stored array takes the new fields, but they are
     * lost when it is stored back as it was.
     */
    method GuardarRegistro(hoy: string, tipo: Tipo, hora: string, foto: string, nota: string) returns (ok: bool)
      modifies this
      ensures ok <==> !(hoy in old(items) && (old(items)[hoy].ParsedNull? || old(items)[hoy].Primitive?))
      ensures !ok || (hoy in old(items) && old(items)[hoy].ArrayValue?) ==> items == old(items)
      ensures hoy !in old(items) || old(items)[hoy].Parsed? || old(items)[hoy].Unparsable? ==>
        items == old(items)[hoy := Parsed(Recorded(Current(old(Get(hoy))), tipo, hora, foto, nota))]
    {
      var data := EMPTY;
      if hoy in items {
        match items[hoy]
        case Parsed(d) => data := d;
        case Unparsable => data := EMPTY;
        case ParsedNull => return false;
        case Primitive => return false;
        case ArrayValue =>
          items := items[hoy := ArrayValue];
          return true;
      }
      if tipo == Incidencia {
        var incidencias := data.incidencias.GetOr([]);
        incidencias := incidencias + [Storage.Incidencia(hora, foto, nota)];
        data := data.(incidencias := Some(incidencias));
      } else if tipo == Entrada {
        data := data.(entrada := Some(Storage.Registro(hora, foto)));
      } else if tipo == Salida {
        data := data.(salida := Some(Storage.Registro(hora, foto)));
      }
      items := items[hoy := Parsed(data)];
      return true;
    }
  }

  // ---- enumeration of days and months ----

  /** The months (`YYYY-MM`) of the day keys among `keys`. */
  ghost function Months(keys: seq<string>): set<string> {
    set k | k in keys && Storage.ValidKey(k) :: k[..7]
  }

  lemma MonthsStep(keys: seq<string>, key: string)
    ensures Months(keys + [key]) == Months(keys) + (if Storage.ValidKey(key) then {key[..7]} else {})
  {
  }

  /** Appending a month not yet seen keeps a list duplicate-free. */
  lemma DistinctAppend(s: seq<string>, x: string)
    requires Distinct(s) && x !in s
    ensures Distinct(s + [x])
  {
    assert forall y :: multiset(s + [x])[y] == multiset(s)[y] + (if y == x then 1 else 0);
  }

  /** `Array.from(meses).sort().reverse()` on a duplicate-free list: the same strings, each once, in descending order. */
  lemma NewestFirst(seen: seq<string>)
    requires Distinct(seen)
    ensures var r := Reverse(SortStrings(seen));
      Distinct(r) && Descending(r) && forall m :: m in r <==> m in seen
  {
    var sorted := SortStrings(seen);
    ReverseSortedDescending(sorted);
    var r := Reverse(sorted);
    assert multiset(r) == multiset(seen);
    forall m ensures m in r <==> m in seen {
      assert m in r <==> m in multiset(r);
      assert m in seen <==> m in multiset(seen);
    }
  }

  /**
   * `obtenerMesesDisponibles`: `listing` is the store's list of keys (None
   * when listing fails). The months of the day keys, each once, newest first.
   */
  method MesesDisponibles(listing: Option<seq<string>>) returns (meses: seq<string>)
    ensures listing.None? ==> meses == []
    ensures listing.Some? ==> (forall m :: m in meses <==> m in Months(listing.value))
    ensures Distinct(meses) && Descending(meses)
  {
    if listing.None? {
      return [];
    }
    var keys := listing.value;
    var seen: seq<string> := [];
    for i := 0 to |keys|
      invariant forall m :: m in seen <==> m in Months(keys[..i])
      invariant Distinct(seen)
    {
      var key := keys[i];
      assert keys[..i + 1] == keys[..i] + [key];
      MonthsStep(keys[..i], key);
      if Storage.ValidKey(key) && key[..7] !in seen {
        DistinctAppend(seen, key[..7]);
        seen := seen + [key[..7]];
      }
    }
    assert keys[..|keys|] == keys;
    NewestFirst(seen);
    meses := Reverse(SortStrings(seen));
  }

  /** The keys `generarPDF` keeps: those starting with `mes`, or all of them when no month is given. */
  function SelectKeys(keys: seq<string>, mes: Option<string>): (r: seq<string>)
    ensures forall k :: k in r <==> k in keys && (mes.None? || StartsWith(k, mes.value))
    ensures forall k :: multiset(r)[k] == if mes.None? || StartsWith(k, mes.value) then multiset(keys)[k] else 0
  {
    if keys == [] then []
    else
      assert keys == [keys[0]] + keys[1..];
      (if mes.None? || StartsWith(keys[0], mes.value) then [keys[0]] else []) + SelectKeys(keys[1..], mes)
  }

  /** The days `generarPDF` renders, in ascending order: every selected key, as often as it is listed. */
  function PdfFechas(keys: seq<string>, mes: Option<string>): (fechas: seq<string>)
    ensures Sorted(fechas)
    ensures multiset(fechas) == multiset(SelectKeys(keys, mes))
    ensures forall k :: k in fechas <==> k in keys && (mes.None? || StartsWith(k, mes.value))
  {
    var r := SortStrings(SelectKeys(keys, mes));
    assert forall k :: k in r <==> k in multiset(r);
    r
  }
}
