/**
 * The day store of src/native/storage.ts: day records kept in the device's
 * key/value store (Capacitor Preferences) under `YYYY-MM-DD` keys, the lazy
 * migration from the single-session shape to the multi-session shape
 * (`jornadas`), and the sorted index of day keys kept under a reserved key.
 */
module Storage {
  import opened Wrappers
  import opened Strings

  /** A time stamp (`hora`, "HH:MM") with the path of its photo (`foto`, possibly empty). */
  datatype Registro = Registro(hora: string, foto: string)

  /** A `Registro` with the note that describes the incident. */
  datatype Incidencia = Incidencia(hora: string, foto: string, nota: string)

  /** One work session: a clock-in, an optional clock-out and optional incidents. */
  datatype Jornada = Jornada(entrada: Registro, salida: Option<Registro>, incidencias: Option<seq<Incidencia>>)

  /** A day record in the current shape. */
  datatype RegistroData = RegistroData(jornadas: seq<Jornada>)

  /**
   * The `jornadas` field of a stored value as the two tests on it see it:
   * `Array.isArray(raw.jornadas)` holds only for `List`; `!raw.jornadas`
   * holds for `NotList(false)`, which also stands for a missing field.
   */
  datatype JornadasField = List(items: seq<Jornada>) | NotList(truthy: bool)

  /**
   * A day value as parsed from its JSON text: a falsy JSON value (`null`,
   * `false`, `0`, `""`) or an object holding the new field, the legacy
   * single-session fields, or both. A truthy number, string or array has
   * none of these fields and reads as `Obj(NotList(false), None, None, None)`:
   * it normalizes to `{jornadas: []}`, which is written back.
   */
  datatype Raw =
    | Falsy
    | Obj(jornadas: JornadasField, entrada: Option<Registro>, salida: Option<Registro>,
          incidencias: Option<seq<Incidencia>>)

  /** What a key of the store holds: a day value, or the index of day keys. */
  datatype Value = Day(raw: Raw) | Index(keys: seq<string>)

  /** The reserved key of the index of day keys. */
  const INDEX_KEY: string := "__indice_dias__"

  /** The clock-in given to a session created only to hold legacy incidents. */
  const PLACEHOLDER: Registro := Registro("00:00", "")

  const MS_PER_DAY: int := 86400000

  /** The message `setDia` throws for an invalid key. */
  const INVALID_KEY: string := "Clave inválida (YYYY-MM-DD)"

  // ---- day keys ----

  /** `KEY_REGEX`: four ASCII digits, '-', two digits, '-', two digits, and nothing else. */
  predicate ValidKey(k: string) {
    |k| == 10 && AllDigits(k[..4]) && k[4] == '-' && AllDigits(k[5..7]) && k[7] == '-' && AllDigits(k[8..])
  }

  /** The key of year `y`, month `m`, day `d`, zero-padded (what `toISOString().slice(0, 10)` yields). */
  function FormatKey(y: nat, m: nat, d: nat): string {
    Digits(y, 4) + "-" + Digits(m, 2) + "-" + Digits(d, 2)
  }

  function ParseKey(k: string): (nat, nat, nat)
    requires ValidKey(k)
  {
    (DigitsValue(k[..4]), DigitsValue(k[5..7]), DigitsValue(k[8..]))
  }

  /** Every padded year-month-day string is a valid key, and reads back as its three numbers. */
  lemma FormatKeyValid(y: nat, m: nat, d: nat)
    requires y < 10000 && m < 100 && d < 100
    ensures ValidKey(FormatKey(y, m, d)) && ParseKey(FormatKey(y, m, d)) == (y, m, d)
  {
    var k := FormatKey(y, m, d);
    assert k[..4] == Digits(y, 4) && k[5..7] == Digits(m, 2) && k[8..] == Digits(d, 2);
    DigitsRoundTrip(y, 4);
    DigitsRoundTrip(m, 2);
    DigitsRoundTrip(d, 2);
  }

  /** Every valid key is the padded form of the numbers it holds: the regex admits nothing else. */
  lemma ValidKeyFormatted(k: string)
    requires ValidKey(k)
    ensures FormatKey(ParseKey(k).0, ParseKey(k).1, ParseKey(k).2) == k
  {
    ValueRoundTrip(k[..4]);
    ValueRoundTrip(k[5..7]);
    ValueRoundTrip(k[8..]);
    assert k == k[..4] + "-" + k[5..7] + "-" + k[8..];
  }

  /** The index key is never a day key, so day reads and writes never touch the index. */
  lemma IndexKeyIsNotADay()
    ensures !ValidKey(INDEX_KEY)
  {
  }

  // ---- migration v0 -> v1 ----

  /**
   * `normalize`: a falsy value has no record; a value whose `jornadas` is an
   * array keeps that list; otherwise the legacy fields become at most one
   * session.
   */
  function Normalize(raw: Raw): (r: Option<RegistroData>)
    ensures r.None? <==> raw.Falsy?
    ensures raw.Obj? && raw.jornadas.List? ==> r == Some(RegistroData(raw.jornadas.items))
    ensures raw.Obj? && !raw.jornadas.List? ==>
      |r.value.jornadas| <= 1 &&
      (r.value.jornadas == [] <==> raw.entrada.None? && raw.salida.None? && raw.incidencias.GetOr([]) == [])
    ensures raw.Obj? && !raw.jornadas.List? && r.value.jornadas != [] ==>
      var j := r.value.jornadas[0];
      j.incidencias == Some(raw.incidencias.GetOr([])) &&
      (raw.entrada.Some? ==> j.entrada == raw.entrada.value && j.salida == raw.salida) &&
      (raw.entrada.None? && raw.salida.Some? ==> j.entrada == raw.salida.value && j.salida.None?) &&
      (raw.entrada.None? && raw.salida.None? ==> j.entrada == PLACEHOLDER && j.salida.None?)
  {
    match raw
    case Falsy => None
    case Obj(js, entrada, salida, incidencias) =>
      if js.List? then Some(RegistroData(js.items))
      else if entrada.Some? then
        Some(RegistroData([Jornada(entrada.value, salida, Some(incidencias.GetOr([])))]))
      else if salida.Some? then
        Some(RegistroData([Jornada(salida.value, None, Some(incidencias.GetOr([])))]))
      else if incidencias.Some? && |incidencias.value| > 0 then
        Some(RegistroData([Jornada(PLACEHOLDER, None, incidencias)]))
      else
        Some(RegistroData([]))
  }

  /** The value `JSON.stringify(data)` stores, as it parses back. */
  function Encode(data: RegistroData): Raw {
    Obj(List(data.jornadas), None, None, None)
  }

  /** `getDia` writes the normalized form back exactly when the stored `jornadas` is falsy. */
  predicate NeedsWriteBack(raw: Raw) {
    raw.Obj? && raw.jornadas == NotList(false)
  }

  /** Normalizing is idempotent: a normalized record, once stored, reads back unchanged and needs no write. */
  lemma NormalizeIdempotent(raw: Raw)
    requires Normalize(raw).Some?
    ensures Normalize(Encode(Normalize(raw).value)) == Normalize(raw)
    ensures !NeedsWriteBack(Encode(Normalize(raw).value))
  {
  }

  /** A legacy day with a clock-in at 09:00 and a clock-out at 17:00 becomes one session holding both, with no incidents. */
  lemma LegacyDayMigrates()
    ensures Normalize(Obj(NotList(false), Some(Registro("09:00", "a")), Some(Registro("17:00", "b")), None))
      == Some(RegistroData([Jornada(Registro("09:00", "a"), Some(Registro("17:00", "b")), Some([]))]))
  {
  }

  // ---- the store ----

  /** The index key holds the index and every other key holds a day value. */
  ghost predicate WellTyped(entries: map<string, Value>) {
    (INDEX_KEY in entries ==> entries[INDEX_KEY].Index?) &&
    (forall k :: k in entries && k != INDEX_KEY ==> entries[k].Day?)
  }

  /** The stored index, if any, is sorted and free of duplicates. */
  ghost predicate IndexOrdered(entries: map<string, Value>)
    requires WellTyped(entries)
  {
    INDEX_KEY in entries ==> Sorted(entries[INDEX_KEY].keys) && Distinct(entries[INDEX_KEY].keys)
  }

  /** `listDias`: the stored index, or the empty list when none is stored. */
  function IndexOf(entries: map<string, Value>): (dias: seq<string>)
    requires WellTyped(entries)
    ensures INDEX_KEY !in entries ==> dias == []
    ensures INDEX_KEY in entries ==> Index(dias) == entries[INDEX_KEY]
  {
    if INDEX_KEY in entries then entries[INDEX_KEY].keys else []
  }

  /** What `getDia(key)` returns. */
  function ReadDay(entries: map<string, Value>, key: string): (r: Option<RegistroData>)
    requires WellTyped(entries)
    ensures !ValidKey(key) || key !in entries ==> r.None?
    ensures ValidKey(key) && key in entries ==> r == Normalize(entries[key].raw)
  {
    if !ValidKey(key) || key !in entries then None else Normalize(entries[key].raw)
  }

  /** The store after `getDia(key)`: the normalized record replaces a value that lacked `jornadas`. */
  function AfterRead(entries: map<string, Value>, key: string): (e: map<string, Value>)
    requires WellTyped(entries)
    ensures WellTyped(e)
  {
    if ValidKey(key) && key in entries && NeedsWriteBack(entries[key].raw)
    then entries[key := Day(Encode(Normalize(entries[key].raw).value))]
    else entries
  }

  /**
   * A read writes at most the day it reads, and writes it exactly when the
   * key is valid, stored, and its `jornadas` is falsy.
   */
  lemma AfterReadEffect(entries: map<string, Value>, key: string)
    requires WellTyped(entries)
    ensures forall k :: k != key && k in entries ==> k in AfterRead(entries, key) && AfterRead(entries, key)[k] == entries[k]
    ensures AfterRead(entries, key).Keys == entries.Keys
    ensures AfterRead(entries, key) != entries <==> ValidKey(key) && key in entries && NeedsWriteBack(entries[key].raw)
  {
  }

  /** Reading a day settles after one read: a second read returns the same record and writes nothing. */
  lemma {:induction false} ReadSettles(entries: map<string, Value>, key: string)
    requires WellTyped(entries)
    ensures ReadDay(AfterRead(entries, key), key) == ReadDay(entries, key)
    ensures AfterRead(AfterRead(entries, key), key) == AfterRead(entries, key)
    ensures AfterRead(entries, key).Keys == entries.Keys
  {
    if ValidKey(key) && key in entries && NeedsWriteBack(entries[key].raw) {
      NormalizeIdempotent(entries[key].raw);
    }
  }

  /** A record written with `setDia` is read back by `getDia` unchanged, with no further write. */
  lemma {:induction false} WriteThenRead(entries: map<string, Value>, key: string, data: RegistroData)
    requires WellTyped(entries) && ValidKey(key)
    ensures WellTyped(entries[key := Day(Encode(data))])
    ensures ReadDay(entries[key := Day(Encode(data))], key) == Some(data)
    ensures AfterRead(entries[key := Day(Encode(data))], key) == entries[key := Day(Encode(data))]
  {
    IndexKeyIsNotADay();
  }

  /** Whether `removeDiasAntiguos` keeps key `k`: its date parses and lies at most `dias` days before `now`. */
  predicate Retained(k: string, dias: int, now: int, dateMs: string -> Option<int>) {
    match dateMs(k)
    case None => false
    case Some(t) => now - t <= dias * MS_PER_DAY
  }

  /** The retained keys of `s`, in their original order. */
  function Kept(s: seq<string>, dias: int, now: int, dateMs: string -> Option<int>): seq<string> {
    if s == [] then []
    else
      var last := s[|s| - 1];
      assert s == s[..|s| - 1] + [last];
      Kept(s[..|s| - 1], dias, now, dateMs) + (if Retained(last, dias, now, dateMs) then [last] else [])
  }

  /** The keys of `s` whose records are removed. */
  function Expired(s: seq<string>, dias: int, now: int, dateMs: string -> Option<int>): set<string> {
    set k | k in s && !Retained(k, dias, now, dateMs)
  }

  lemma RemoveTwice(entries: map<string, Value>, gone: set<string>, k: string)
    ensures (entries - gone) - {k} == entries - (gone + {k})
  {
  }

  /** One more key of the index: it joins the kept list or the expired set. */
  lemma PruneStep(s: seq<string>, k: string, dias: int, now: int, dateMs: string -> Option<int>)
    ensures Kept(s + [k], dias, now, dateMs)
      == Kept(s, dias, now, dateMs) + (if Retained(k, dias, now, dateMs) then [k] else [])
    ensures Expired(s + [k], dias, now, dateMs)
      == Expired(s, dias, now, dateMs) + (if Retained(k, dias, now, dateMs) then {} else {k})
  {
    assert (s + [k])[..|s + [k]| - 1] == s;
  }

  /** The kept list holds exactly the retained keys of the index, each as often as there. */
  lemma {:induction false} KeptMembers(s: seq<string>, dias: int, now: int, dateMs: string -> Option<int>)
    ensures forall k :: k in Kept(s, dias, now, dateMs) <==> k in s && Retained(k, dias, now, dateMs)
    ensures forall k :: multiset(Kept(s, dias, now, dateMs))[k] == if Retained(k, dias, now, dateMs) then multiset(s)[k] else 0
  {
    if s != [] {
      var init, last := s[..|s| - 1], s[|s| - 1];
      assert s == init + [last];
      KeptMembers(init, dias, now, dateMs);
    }
  }

  /** The kept list is in index order, so a sorted index stays sorted. */
  lemma {:induction false} KeptSorted(s: seq<string>, dias: int, now: int, dateMs: string -> Option<int>)
    requires Sorted(s)
    ensures Sorted(Kept(s, dias, now, dateMs))
  {
    if s != [] {
      var init, last := s[..|s| - 1], s[|s| - 1];
      assert s == init + [last];
      KeptSorted(init, dias, now, dateMs);
      KeptMembers(init, dias, now, dateMs);
      var k0 := Kept(init, dias, now, dateMs);
      forall i | 0 <= i < |k0| ensures Below(k0[i], last) {
        assert k0[i] in init;
      }
    }
  }

  /**
   * Pruning partitions the index: every indexed key is either kept or
   * expired, never both, and the kept list stays sorted and duplicate-free
   * when the index was.
   */
  lemma PrunePartition(s: seq<string>, dias: int, now: int, dateMs: string -> Option<int>)
    ensures forall k :: k in s ==> (k in Kept(s, dias, now, dateMs) <==> k !in Expired(s, dias, now, dateMs))
    ensures Sorted(s) ==> Sorted(Kept(s, dias, now, dateMs))
    ensures Distinct(s) ==> Distinct(Kept(s, dias, now, dateMs))
  {
    KeptMembers(s, dias, now, dateMs);
    if Sorted(s) {
      KeptSorted(s, dias, now, dateMs);
    }
  }

  /** The store after `removeDiasAntiguos`: expired records removed, the index rewritten with the kept keys. */
  function Pruned(entries: map<string, Value>, dias: int, now: int, dateMs: string -> Option<int>): map<string, Value>
    requires WellTyped(entries)
  {
    (entries - Expired(IndexOf(entries), dias, now, dateMs))[INDEX_KEY := Index(Kept(IndexOf(entries), dias, now, dateMs))]
  }

  /**
   * Pruning removes the record of every indexed key that is not retained,
   * keeps the record of every retained key and of every key the index does
   * not list, and leaves the index holding exactly the retained keys, still
   * sorted and duplicate-free when it was.
   */
  lemma PruneEffect(entries: map<string, Value>, dias: int, now: int, dateMs: string -> Option<int>)
    requires WellTyped(entries)
    ensures WellTyped(Pruned(entries, dias, now, dateMs))
    ensures forall k :: k in IndexOf(entries) && k != INDEX_KEY ==>
      (k in Pruned(entries, dias, now, dateMs) <==> k in entries && Retained(k, dias, now, dateMs))
    ensures forall k :: k in IndexOf(entries) && k != INDEX_KEY && k in entries && Retained(k, dias, now, dateMs) ==>
      Pruned(entries, dias, now, dateMs)[k] == entries[k]
    ensures forall k :: k !in IndexOf(entries) && k != INDEX_KEY && k in entries ==>
      k in Pruned(entries, dias, now, dateMs) && Pruned(entries, dias, now, dateMs)[k] == entries[k]
    ensures forall k :: k in IndexOf(Pruned(entries, dias, now, dateMs)) <==>
      k in IndexOf(entries) && Retained(k, dias, now, dateMs)
    ensures IndexOrdered(entries) ==> IndexOrdered(Pruned(entries, dias, now, dateMs))
  {
    PrunePartition(IndexOf(entries), dias, now, dateMs);
    KeptMembers(IndexOf(entries), dias, now, dateMs);
  }

  /** The new index `addDiaAlIndice` writes for a key it has not seen: the old keys and the new one, sorted, each once. */
  lemma IndexInsert(dias: seq<string>, key: string)
    requires key !in dias
    ensures key in SortStrings(dias + [key])
    ensures multiset(SortStrings(dias + [key])) == multiset(dias) + multiset{key}
    ensures Sorted(SortStrings(dias + [key]))
    ensures Distinct(dias) ==> Distinct(SortStrings(dias + [key]))
  {
    assert key in multiset(SortStrings(dias + [key]));
  }

  /**
   * The Preferences store: every key and the value it holds. Each method
   * below is one exported function of storage.ts and reads or writes this
   * map as that function reads or writes the store.
   */
  class Preferences {
    var entries: map<string, Value>

    ghost predicate Valid()
      reads this
    {
      WellTyped(entries)
    }

    constructor ()
      ensures Valid() && entries == map[] && IndexOrdered(entries)
    {
      entries := map[];
    }

    /** `listDias`. */
    method ListDias() returns (dias: seq<string>)
      requires Valid()
      ensures dias == IndexOf(entries)
      ensures INDEX_KEY !in entries ==> dias == []
    {
      if INDEX_KEY in entries {
        dias := entries[INDEX_KEY].keys;
      } else {
        dias := [];
      }
    }

    /** `addDiaAlIndice`: the index is rewritten, sorted, only when the key is new. */
    method AddDiaAlIndice(key: string)
      requires Valid()
      modifies this
      ensures Valid()
      ensures key in old(IndexOf(entries)) ==> entries == old(entries)
      ensures key !in old(IndexOf(entries)) ==>
        entries == old(entries)[INDEX_KEY := Index(SortStrings(old(IndexOf(entries)) + [key]))]
      ensures key in IndexOf(entries)
      ensures old(IndexOrdered(entries)) ==> IndexOrdered(entries)
    {
      var dias := ListDias();
      if key !in dias {
        IndexInsert(dias, key);
        dias := dias + [key];
        dias := SortStrings(dias);
        entries := entries[INDEX_KEY := Index(dias)];
      }
    }

    /** `getDia`: an invalid key or a missing value reads as no record; a legacy value is migrated and written back. */
    method GetDia(key: string) returns (r: Option<RegistroData>)
      requires Valid()
      modifies this
      ensures Valid()
      ensures r == ReadDay(old(entries), key)
      ensures entries == AfterRead(old(entries), key)
      ensures !ValidKey(key) ==> r.None? && entries == old(entries)
    {
      if !ValidKey(key) {
        return None;
      }
      if key !in entries {
        return None;
      }
      IndexKeyIsNotADay();
      var raw := entries[key].raw;
      var norm := Normalize(raw);
      if norm.None? {
        return None;
      }
      if NeedsWriteBack(raw) {
        entries := entries[key := Day(Encode(norm.value))];
      }
      return norm;
    }

    /** `setDia`: fails with the invalid-key message and writes nothing unless the key is valid. */
    method SetDia(key: string, data: RegistroData) returns (r: Result<(), string>)
      requires Valid()
      modifies this
      ensures Valid()
      ensures r.Ok? <==> ValidKey(key)
      ensures r.Err? ==> r.error == INVALID_KEY && entries == old(entries)
      ensures r.Ok? ==> entries == old(entries)[key := Day(Encode(data))]
    {
      if !ValidKey(key) {
        return Err(INVALID_KEY);
      }
      IndexKeyIsNotADay();
      entries := entries[key := Day(Encode(data))];
      return Ok(());
    }

    /**
     * `removeDiasAntiguos(dias)`: `now` is the current time and `dateMs` gives
     * `new Date(k).getTime()` (None for an invalid date), both in milliseconds.
     * Expired keys lose their records; the index is written once, at the end,
     * with the retained keys in their original order.
     */
    method RemoveDiasAntiguos(dias: int, now: int, dateMs: string -> Option<int>)
      requires Valid()
      modifies this
      ensures Valid()
      ensures entries == Pruned(old(entries), dias, now, dateMs)
      ensures old(IndexOrdered(entries)) ==> IndexOrdered(entries)
    {
      var indice := ListDias();
      var keep: seq<string> := [];
      ghost var start := entries;
      for i := 0 to |indice|
        invariant keep == Kept(indice[..i], dias, now, dateMs)
        invariant entries == start - Expired(indice[..i], dias, now, dateMs)
      {
        var k := indice[i];
        assert indice[..i + 1] == indice[..i] + [k];
        PruneStep(indice[..i], k, dias, now, dateMs);
        if Retained(k, dias, now, dateMs) {
          keep := keep + [k];
        } else {
          RemoveTwice(start, Expired(indice[..i], dias, now, dateMs), k);
          entries := entries - {k};
        }
      }
      assert indice[..|indice|] == indice;
      PruneEffect(start, dias, now, dateMs);
      entries := entries[INDEX_KEY := Index(keep)];
    }
  }
}
