/** MAP.DEL of a field, on the maps that the stored texts mean. The JSON text of a map is a parameter. */
module Maps {
  import opened Base
  import opened Store
  import opened Replay
  import opened Durability
  import opened Commands
  import LogFormat
  import Json

  type Fields = map<string, Json.Json>

  /** JSON text of maps; a text may fail to parse as one. A stored null parses as the empty map. */
  datatype MapCodec = MapCodec(encode: Fields -> bytes, decode: bytes -> Option<Fields>)

  /** What MAP.DEL makes of the stored text. */
  function Without(mc: MapCodec, field: string): bytes -> WithoutField
  {
    (text: bytes) =>
      match mc.decode(text)
      case None => NotAnObject
      case Some(fields) => if |fields| == 1 then SingleField else Rest(mc.encode(fields - {field}))
  }

  /** The map that a reader finds under the key at time `t`. */
  function FieldsAt(mc: MapCodec, m: Mem, key: string, t: Time): Option<Fields>
  {
    match GetStep(m, key, t).1
    case None => None
    case Some(o) => if o.kind != MAP_KIND then None else mc.decode(o.value)
  }

  /**
   * MAP.DEL of a field on a stored map that reads back: a map of one field goes as a whole, whatever field was named;
   * any other loses just that field, if it has it, and keeps its deadline. The record logged says so too.
   */
  lemma MapDelMeans(mc: MapCodec, m: Mem, q: seq<LogFormat.Entry>, key: string, field: string, now: Time, t: Time,
                    shared: set<nat>)
    requires FieldsAt(mc, m, key, now).Some? && now <= t
    requires var left := FieldsAt(mc, m, key, now).value - {field}; mc.decode(mc.encode(left)) == Some(left)
    ensures var fields, f := FieldsAt(mc, m, key, now).value, MapDelEffect(m, q, key, Without(mc, field), now, shared);
            && FieldsAt(mc, f.mem, key, t) ==
               (if |fields| == 1 || Past(m[key], t) then None else Some(fields - {field}))
            && (key in f.mem <==> |fields| != 1)
            && (key in f.mem ==> f.mem[key].timestamp == m[key].timestamp)
            && Last(f.queue, key) == Some(if key in f.mem then Put(key, f.mem[key])
                                          else LogFormat.Entry(LogFormat.Erase, key, None))
  {
    var o, fields := m[key], FieldsAt(mc, m, key, now).value;
    if |fields| == 1 {
      LastOfOneMore(q, LogFormat.Entry(LogFormat.Erase, key, None), key);
    } else {
      var o1 := o.(value := mc.encode(fields - {field}));
      LastOfOneMore(Touch(q, key, shared, o1), Put(key, o1), key);
    }
  }

  /** A field that was not named is lost if and only if it was the map's only one. */
  lemma LosesAnotherFieldIff(mc: MapCodec, m: Mem, q: seq<LogFormat.Entry>, key: string, field: string, other: string,
                             now: Time, shared: set<nat>)
    requires FieldsAt(mc, m, key, now).Some? && other != field && other in FieldsAt(mc, m, key, now).value
    requires var left := FieldsAt(mc, m, key, now).value - {field}; mc.decode(mc.encode(left)) == Some(left)
    ensures var after := FieldsAt(mc, MapDelEffect(m, q, key, Without(mc, field), now, shared).mem, key, now);
            (after.None? || other !in after.value) <==> FieldsAt(mc, m, key, now).value.Keys == {other}
  {
    var fields := FieldsAt(mc, m, key, now).value;
    MapDelMeans(mc, m, q, key, field, now, now, shared);
    OneKey(fields, other);
  }

  lemma OneKey(fields: Fields, k: string)
    requires k in fields
    ensures |fields| == 1 <==> fields.Keys == {k}
  {
    assert fields.Keys == (fields.Keys - {k}) + {k};
  }
}
