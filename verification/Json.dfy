/**
 JSON values, the canonical printer (`json.dumps` with sorted keys, ASCII escapes and compact
 separators) and the readers built on `json.loads`.

 A Python dict is its list of members in insertion order. A float is named by its `repr`.
 */
module Json {
  import opened Basics
  import opened JsonNumber
  import opened JsonText
  import opened Ordering

  datatype Json =
    | Null
    | Bool(b: bool)
    | Int(n: int)
    | Float(repr: string)
    | NonFinite
    | Str(text: Text)
    | Arr(items: seq<Json>)
    | Obj(members: seq<Member>)

  datatype Member = Member(key: Text, value: Json)

  function MemberKey(m: Member): Rank {
    m.key
  }

  /** Every dict in the value has distinct keys, as Python dicts do. */
  predicate Dicts(v: Json) {
    match v
    case Arr(items) => forall x :: x in items ==> Dicts(x)
    case Obj(members) => NoDuplicates(members) && forall m :: m in members ==> Dicts(m.value)
    case _ => true
  }

  // ----- Canonical printer -----

  /** The value with the members of every dict sorted by key (`sort_keys=True`). */
  function Canon(v: Json): Json {
    match v
    case Arr(items) => Arr(CanonItems(items))
    case Obj(members) => Obj(Sort(CanonMembers(members), MemberKey))
    case _ => v
  }

  function CanonItems(items: seq<Json>): (r: seq<Json>)
    ensures |r| == |items|
    ensures forall i :: 0 <= i < |r| ==> r[i] == Canon(items[i])
  {
    if items == [] then [] else [Canon(items[0])] + CanonItems(items[1..])
  }

  function CanonMembers(members: seq<Member>): (r: seq<Member>)
    ensures |r| == |members|
    ensures forall i :: 0 <= i < |r| ==> r[i] == Member(members[i].key, Canon(members[i].value))
  {
    if members == [] then []
    else [Member(members[0].key, Canon(members[0].value))] + CanonMembers(members[1..])
  }

  /** The text of a value, its members in the order they stand. */
  function Render(v: Json): string {
    match v
    case Null => "null"
    case Bool(b) => if b then "true" else "false"
    case Int(n) => IntText(n)
    case Float(repr) => repr
    case NonFinite => "NaN"
    case Str(text) => ['"'] + Quoted(text)
    case Arr(items) => if items == [] then "[]" else ['['] + ItemsText(items)
    case Obj(members) => if members == [] then "{}" else ['{'] + MembersText(members)
  }

  function ItemsText(items: seq<Json>): string
    requires items != []
  {
    Render(items[0]) + if |items| == 1 then [']'] else [','] + ItemsText(items[1..])
  }

  function MemberText(key: string, value: string, tail: string): string {
    ['"'] + (key + ([':'] + (value + tail)))
  }

  function MembersText(members: seq<Member>): string
    requires members != []
  {
    MemberText(Quoted(members[0].key), Render(members[0].value),
               if |members| == 1 then ['}'] else [','] + MembersText(members[1..]))
  }

  /** No NaN or infinity anywhere: `allow_nan=False` raises on them. */
  predicate Finite(v: Json) {
    match v
    case NonFinite => false
    case Arr(items) => forall x :: x in items ==> Finite(x)
    case Obj(members) => forall m :: m in members ==> Finite(m.value)
    case _ => true
  }

  /** `str.replace("\r\n", "\n")`. */
  function ReplaceCrLf(s: string): string {
    if |s| < 2 then s
    else if s[0] == '\r' && s[1] == '\n' then ['\n'] + ReplaceCrLf(s[2..])
    else [s[0]] + ReplaceCrLf(s[1..])
  }

  /** `canonical_json_serialize`. */
  function Serialize(v: Json): Option<string> {
    if Finite(v) then Some(ReplaceCrLf(Render(Canon(v))) + ['\n']) else None
  }

  // ----- Readers -----

  /** `strict` rejects duplicate keys and non-finite numbers; otherwise pairs are kept as read. */
  datatype Reader = Reader(strict: bool, toFloat: FloatOf)

  /** `repr(float(lexeme))`, or `None` when the float is infinite. */
  type FloatOf = string -> Option<string>

  predicate Space(c: char) { c == ' ' || c == '\t' || c == '\n' || c == '\r' }

  function SkipSpace(s: string): (r: string)
    ensures |r| <= |s|
    ensures r != "" ==> !Space(r[0])
  {
    if s != "" && Space(s[0]) then SkipSpace(s[1..]) else s
  }

  predicate NoDuplicates(members: seq<Member>) {
    forall i, j :: 0 <= i < j < |members| ==> members[i].key != members[j].key
  }

  function ReadNonFinite(s: string, rd: Reader): Option<(Json, string)> {
    if rd.strict then None else Some((NonFinite, s))
  }

  function ReadNumber(s: string, rd: Reader): (r: Option<(Json, string)>)
    ensures r.Some? ==> |r.value.1| < |s|
  {
    match NumberEnd(s)
    case None => None
    case Some(e) =>
      if !e.1 then Some((Int(IntValue(s[..e.0])), s[e.0..]))
      else
        match rd.toFloat(s[..e.0])
        case Some(repr) => Some((Float(repr), s[e.0..]))
        case None => ReadNonFinite(s[e.0..], rd)
  }

  function ReadAtom(s: string, rd: Reader): (r: Option<(Json, string)>)
    ensures r.Some? ==> |r.value.1| < |s|
  {
    if "null" <= s then Some((Null, s[4..]))
    else if "true" <= s then Some((Bool(true), s[4..]))
    else if "false" <= s then Some((Bool(false), s[5..]))
    else if "NaN" <= s then ReadNonFinite(s[3..], rd)
    else if "Infinity" <= s then ReadNonFinite(s[8..], rd)
    else if "-Infinity" <= s then ReadNonFinite(s[9..], rd)
    else ReadNumber(s, rd)
  }

  /** The value at the front of `s`, and what follows it. */
  function ReadValue(s: string, rd: Reader): (r: Option<(Json, string)>)
    ensures r.Some? ==> |r.value.1| < |s|
    decreases |s|, 0
  {
    if s == "" then None
    else if s[0] == '"' then
      match ReadText(s[1..])
      case None => None
      case Some(p) => Some((Str(p.0), p.1))
    else if s[0] == '[' then
      var t := SkipSpace(s[1..]);
      if t != "" && t[0] == ']' then Some((Arr([]), t[1..]))
      else
        match ReadItems(t, rd)
        case None => None
        case Some(p) => Some((Arr(p.0), p.1))
    else if s[0] == '{' then
      var t := SkipSpace(s[1..]);
      if t != "" && t[0] == '}' then Some((Obj([]), t[1..]))
      else
        match ReadMembers(t, rd)
        case None => None
        case Some(p) => if rd.strict && !NoDuplicates(p.0) then None else Some((Obj(p.0), p.1))
    else ReadAtom(s, rd)
  }

  function ReadItems(s: string, rd: Reader): (r: Option<(seq<Json>, string)>)
    ensures r.Some? ==> |r.value.1| < |s|
    decreases |s|, 1
  {
    match ReadValue(s, rd)
    case None => None
    case Some(p) =>
      var t := SkipSpace(p.1);
      if t == "" then None
      else if t[0] == ']' then Some(([p.0], t[1..]))
      else if t[0] == ',' then
        match ReadItems(SkipSpace(t[1..]), rd)
        case None => None
        case Some(q) => Some(([p.0] + q.0, q.1))
      else None
  }

  /** The key at the front of `s` and the text of its value, past the colon. */
  function ReadKey(s: string): (r: Option<(Text, string)>)
    ensures r.Some? ==> |r.value.1| < |s|
  {
    if s == "" || s[0] != '"' then None
    else
      match ReadText(s[1..])
      case None => None
      case Some(p) =>
        var t := SkipSpace(p.1);
        if t == "" || t[0] != ':' then None else Some((p.0, SkipSpace(t[1..])))
  }

  function ReadMembers(s: string, rd: Reader): (r: Option<(seq<Member>, string)>)
    ensures r.Some? ==> |r.value.1| < |s|
    decreases |s|, 1
  {
    match ReadKey(s)
    case None => None
    case Some(k) =>
      match ReadValue(k.1, rd)
      case None => None
      case Some(p) =>
        var t := SkipSpace(p.1);
        if t == "" then None
        else if t[0] == '}' then Some(([Member(k.0, p.0)], t[1..]))
        else if t[0] == ',' then
          match ReadMembers(SkipSpace(t[1..]), rd)
          case None => None
          case Some(q) => Some(([Member(k.0, p.0)] + q.0, q.1))
        else None
  }

  /**
   The `object_pairs_hook` that refuses a repeated key: the dict is filled pair by pair.
   */
  method RejectDuplicateKeys(pairs: seq<Member>) returns (r: Result<seq<Member>>)
    ensures r.Ok? <==> NoDuplicates(pairs)
    ensures r.Ok? ==> r.value == pairs
  {
    var seen: set<Text> := {};
    var result: seq<Member> := [];
    for i := 0 to |pairs|
      invariant result == pairs[..i] && NoDuplicates(result)
      invariant forall k :: k in seen <==> exists j :: 0 <= j < i && pairs[j].key == k
    {
      if pairs[i].key in seen {
        var j :| 0 <= j < i && pairs[j].key == pairs[i].key;
        return Err("duplicate key");
      }
      seen := seen + {pairs[i].key};
      result := result + [pairs[i]];
    }
    return Ok(result);
  }

  /** `json.loads`. */
  function Load(s: string, rd: Reader): Option<Json> {
    match ReadValue(SkipSpace(s), rd)
    case None => None
    case Some(p) => if SkipSpace(p.1) == "" then Some(p.0) else None
  }

  /** `_validate_raw_json_strictness` on a value whose object pairs were all kept. */
  predicate RawStrict(v: Json) {
    match v
    case NonFinite => false
    case Arr(items) => RawStrictItems(items)
    case Obj(members) => NoDuplicates(members) && RawStrictMembers(members)
    case _ => true
  }

  predicate RawStrictItems(items: seq<Json>) {
    items != [] ==> RawStrict(items[0]) && RawStrictItems(items[1..])
  }

  predicate RawStrictMembers(members: seq<Member>) {
    members != [] ==> RawStrict(members[0].value) && RawStrictMembers(members[1..])
  }

  // ----- One strict pass is the raw pass followed by the strictness check -----

  function Raw(rd: Reader): Reader { rd.(strict := false) }

  function Strict(rd: Reader): Reader { rd.(strict := true) }

  lemma StrictAtom(s: string, rd: Reader)
    ensures var raw, strict := ReadAtom(s, Raw(rd)), ReadAtom(s, Strict(rd));
            strict == if raw.Some? && RawStrict(raw.value.0) then raw else None
  {
  }

  lemma {:induction false} StrictValue(s: string, rd: Reader)
    ensures var raw, strict := ReadValue(s, Raw(rd)), ReadValue(s, Strict(rd));
            strict == if raw.Some? && RawStrict(raw.value.0) then raw else None
    decreases |s|, 0
  {
    if s != "" && (s[0] == '[' || s[0] == '{') {
      var t := SkipSpace(s[1..]);
      if s[0] == '[' {
        StrictItems(t, rd);
      } else {
        StrictMembers(t, rd);
      }
    } else if s != "" && s[0] != '"' {
      StrictAtom(s, rd);
    }
  }

  lemma {:induction false} StrictItems(s: string, rd: Reader)
    ensures var raw, strict := ReadItems(s, Raw(rd)), ReadItems(s, Strict(rd));
            strict == if raw.Some? && RawStrictItems(raw.value.0) then raw else None
    decreases |s|, 1
  {
    StrictValue(s, rd);
    var p := ReadValue(s, Raw(rd));
    if p.Some? {
      var t := SkipSpace(p.value.1);
      if t != "" && t[0] == ',' {
        StrictItems(SkipSpace(t[1..]), rd);
      }
    }
  }

  lemma {:induction false} StrictMembers(s: string, rd: Reader)
    ensures var raw, strict := ReadMembers(s, Raw(rd)), ReadMembers(s, Strict(rd));
            strict == if raw.Some? && RawStrictMembers(raw.value.0) then raw else None
    decreases |s|, 1
  {
    var k := ReadKey(s);
    if k.Some? {
      StrictValue(k.value.1, rd);
      var p := ReadValue(k.value.1, Raw(rd));
      if p.Some? {
        var t := SkipSpace(p.value.1);
        if t != "" && t[0] == ',' {
          StrictMembers(SkipSpace(t[1..]), rd);
        }
      }
    }
  }

  /** The strict reader accepts exactly what the raw reader accepts and the raw check passes. */
  lemma StrictIsRawThenChecked(s: string, rd: Reader)
    ensures var raw := Load(s, Raw(rd));
            Load(s, Strict(rd)) == if raw.Some? && RawStrict(raw.value) then raw else None
  {
    StrictValue(SkipSpace(s), rd);
  }
}
