/** Splitting a datasource configuration into its plain and secret parts, and merging
    updates into the parts. */
module DatasourceConfig {
  import opened Walks

  datatype Json = Str(text: string) | Num(value: int) | Obj(fields: map<string, Json>) | OtherJson(tag: int)

  datatype FieldType = Text | Number | Select | TextArea

  datatype FieldDef = FieldDef(key: string, kind: FieldType, required: bool, secret: bool, default: Option<string>)

  datatype ConfigError = UnknownType | MissingRequiredField(key: string) | InvalidInput

  type Part = map<string, Json>

  datatype Result = Ok(config: Part, secure: Part) | Err(error: ConfigError)

  // ----- defaults -----

  function Digits(s: string): Option<nat> {
    if s == [] then Some(0)
    else
      var c := s[|s| - 1];
      match Digits(s[..|s| - 1])
      case None => None
      case Some(n) => if '0' <= c <= '9' then Some(10 * n + (c as int - '0' as int)) else None
  }

  /** A signed 64-bit decimal literal. */
  function ParseI64(s: string): Option<int> {
    var negative := s != [] && s[0] == '-';
    var body := if s != [] && (s[0] == '-' || s[0] == '+') then s[1..] else s;
    if body == [] then None
    else match Digits(body)
      case None => None
      case Some(n) =>
        var v: int := if negative then 0 - n else n;
        if -0x8000_0000_0000_0000 <= v < 0x8000_0000_0000_0000 then Some(v) else None
  }

  // ----- which literals are read, and as what -----

  ghost function Render(n: nat): string {
    var last := ((n % 10) + '0' as int) as char;
    if n < 10 then [last] else Render(n / 10) + [last]
  }

  ghost function Zeros(k: nat): string {
    if k == 0 then "" else "0" + Zeros(k - 1)
  }

  ghost predicate SignFits(sign: string, v: int) {
    if v < 0 then sign == "-" else sign == "" || sign == "+" || (v == 0 && sign == "-")
  }

  /** Optional sign, any number of zeros, the decimal form of the absolute value. */
  ghost predicate Spells(s: string, sign: string, k: nat, v: int) {
    s == sign + (Zeros(k) + Render(if v < 0 then -v else v)) && SignFits(sign, v)
  }

  lemma {:induction false} LeadingZero(s: string)
    ensures Digits("0" + s) == Digits(s)
    decreases s
  {
    var z := "0" + s;
    if s == [] {
      assert z[..0] == [];
    } else {
      assert z[..|s|] == "0" + s[..|s| - 1];
      LeadingZero(s[..|s| - 1]);
    }
  }

  lemma {:induction false} DigitsOfRender(n: nat)
    ensures Digits(Render(n)) == Some(n) && Render(n) != [] && '0' <= Render(n)[0] <= '9'
    ensures n >= 10 ==> Render(n)[0] != '0'
    decreases n
  {
    var r := Render(n);
    if n < 10 {
      assert r[..0] == [];
    } else {
      DigitsOfRender(n / 10);
      assert r[..|r| - 1] == Render(n / 10);
      if n / 10 < 10 { assert Render(n / 10) == [((n / 10) + '0' as int) as char]; }
    }
  }

  lemma {:induction false} RenderOfDigits(s: string)
    requires s != [] && Digits(s).Some? && (|s| == 1 || s[0] != '0')
    ensures s == Render(Digits(s).value)
    decreases s
  {
    var init, c := s[..|s| - 1], s[|s| - 1];
    var n := Digits(s).value;
    if |s| > 1 {
      RenderOfDigits(init);
      var m := Digits(init).value;
      assert Render(0) == ['0'];
      assert n == 10 * m + (c as int - '0' as int);
      assert n / 10 == m && n % 10 == c as int - '0' as int;
      assert s == init + [c];
    }
  }

  lemma ZerosStep(k: nat, r: string)
    ensures Zeros(k) + r == if k == 0 then r else "0" + (Zeros(k - 1) + r)
  {
  }

  lemma {:induction false} DigitsOfPadded(k: nat, r: string)
    ensures Digits(Zeros(k) + r) == Digits(r)
    decreases k
  {
    ZerosStep(k, r);
    if k > 0 {
      DigitsOfPadded(k - 1, r);
      LeadingZero(Zeros(k - 1) + r);
    }
  }

  lemma {:induction false} PaddedOfDigits(s: string) returns (k: nat)
    requires s != [] && Digits(s).Some?
    ensures s == Zeros(k) + Render(Digits(s).value)
    decreases s
  {
    if |s| == 1 || s[0] != '0' {
      RenderOfDigits(s);
      k := 0;
      assert s == Zeros(0) + s;
    } else {
      assert s == "0" + s[1..];
      LeadingZero(s[1..]);
      var j := PaddedOfDigits(s[1..]);
      k := j + 1;
      assert s == "0" + (Zeros(j) + Render(Digits(s).value));
      assert Zeros(k) + Render(Digits(s).value) == "0" + (Zeros(j) + Render(Digits(s).value));
    }
  }

  lemma SignedBody(sign: string, body: string, n: nat)
    requires body != [] && '0' <= body[0] <= '9' && Digits(body) == Some(n)
    requires sign == "" || sign == "+" || sign == "-"
    ensures var v: int := if sign == "-" then 0 - n else n;
            ParseI64(sign + body) ==
            if -0x8000_0000_0000_0000 <= v < 0x8000_0000_0000_0000 then Some(v) else None
  {
    var s := sign + body;
    if sign == "" {
      assert s == body;
    } else {
      assert s[0] == sign[0] && s[1..] == body;
    }
  }

  lemma SpelledIsParsed(s: string, sign: string, k: nat, v: int)
    requires Spells(s, sign, k, v) && -0x8000_0000_0000_0000 <= v < 0x8000_0000_0000_0000
    ensures ParseI64(s) == Some(v)
  {
    var n: nat := if v < 0 then -v else v;
    var r := Render(n);
    DigitsOfRender(n);
    DigitsOfPadded(k, r);
    SignedBody(sign, Zeros(k) + r, n);
  }

  lemma ParsedBody(s: string, v: int) returns (sign: string, body: string)
    requires ParseI64(s) == Some(v)
    ensures s == sign + body && SignFits(sign, v)
    ensures body != [] && Digits(body) == Some(if v < 0 then -v else v)
  {
    var signed := s[0] == '-' || s[0] == '+';
    sign, body := if signed then [s[0]] else "", if signed then s[1..] else s;
  }

  lemma ParsedIsSpelled(s: string, v: int) returns (sign: string, k: nat)
    requires ParseI64(s) == Some(v)
    ensures Spells(s, sign, k, v)
  {
    var body;
    sign, body := ParsedBody(s, v);
    k := PaddedOfDigits(body);
  }

  /** A literal is read as a number exactly when it spells it and the number fits 64 signed bits. */
  lemma ParseExact(s: string, v: int)
    ensures ParseI64(s) == Some(v) <==>
            -0x8000_0000_0000_0000 <= v < 0x8000_0000_0000_0000 && exists sign, k :: Spells(s, sign, k, v)
  {
    if ParseI64(s) == Some(v) {
      var sign, k := ParsedIsSpelled(s, v);
    }
    if -0x8000_0000_0000_0000 <= v < 0x8000_0000_0000_0000 {
      if sign, k :| Spells(s, sign, k, v) {
        SpelledIsParsed(s, sign, k, v);
      }
    }
  }

  /** What a field contributes: a value, nothing, or an error. */
  datatype Resolution = Given(value: Json) | Absent | Bad(error: ConfigError)

  function Resolve(f: FieldDef, input: Part): Resolution {
    if f.key in input then Given(input[f.key])
    else if f.default.Some? then
      if f.kind == Number then
        (match ParseI64(f.default.value)
         case Some(n) => Given(Num(n))
         case None => Bad(InvalidInput))
      else Given(Str(f.default.value))
    else if f.required then Bad(MissingRequiredField(f.key))
    else Absent
  }

  // ----- the two operations as functions -----

  function Put(r: Result, f: FieldDef, v: Json): Result {
    if r.Err? then r
    else if f.secret then Ok(r.config, r.secure[f.key := v])
    else Ok(r.config[f.key := v], r.secure)
  }

  function Split(fields: seq<FieldDef>, input: Part): Result {
    if fields == [] then Ok(map[], map[])
    else
      var before := Split(fields[..|fields| - 1], input);
      if before.Err? then before
      else match Resolve(fields[|fields| - 1], input)
        case Given(v) => Put(before, fields[|fields| - 1], v)
        case Absent => before
        case Bad(e) => Err(e)
  }

  predicate KeepsSecret(v: Json) {
    v.Str? && v.text == ""
  }

  /** The value of a field after a merge, if any. */
  function Merged(f: FieldDef, config: Part, secure: Part, update: Part): Option<Json> {
    var existing := if f.secret then secure else config;
    if f.key in update && !(f.secret && KeepsSecret(update[f.key])) then Some(update[f.key])
    else if f.key in existing then Some(existing[f.key])
    else None
  }

  function Merge(fields: seq<FieldDef>, config: Part, secure: Part, update: Part): Result {
    if fields == [] then Ok(map[], map[])
    else
      var f := fields[|fields| - 1];
      var before := Merge(fields[..|fields| - 1], config, secure, update);
      match Merged(f, config, secure, update)
      case Some(v) => Put(before, f, v)
      case None => before
  }

  // ----- the loops -----

  method SplitConfig(typeDef: Option<seq<FieldDef>>, input: Json) returns (r: Result)
    ensures typeDef.None? ==> r == Err(UnknownType)
    ensures typeDef.Some? && !input.Obj? ==> r == Err(InvalidInput)
    ensures typeDef.Some? && input.Obj? ==> r == Split(typeDef.value, input.fields)
  {
    if typeDef.None? {
      return Err(UnknownType);
    }
    if !input.Obj? {
      return Err(InvalidInput);
    }
    var fields := typeDef.value;
    var config: Part, secure: Part := map[], map[];
    for k := 0 to |fields|
      invariant Split(fields[..k], input.fields) == Ok(config, secure)
    {
      var f := fields[k];
      assert fields[..k + 1][..k] == fields[..k];
      match Resolve(f, input.fields)
      case Given(v) =>
        if f.secret {
          secure := secure[f.key := v];
        } else {
          config := config[f.key := v];
        }
      case Absent =>
      case Bad(e) =>
        SplitStopsAt(fields, k + 1, input.fields);
        return Err(e);
    }
    assert fields[..|fields|] == fields;
    return Ok(config, secure);
  }

  lemma {:induction false} SplitStopsAt(fields: seq<FieldDef>, k: nat, input: Part)
    requires k <= |fields| && Split(fields[..k], input).Err?
    ensures Split(fields, input) == Split(fields[..k], input)
    decreases |fields|
  {
    if k < |fields| {
      var init := fields[..|fields| - 1];
      assert init[..k] == fields[..k];
      SplitStopsAt(init, k, input);
    } else {
      assert fields[..k] == fields;
    }
  }

  method MergeConfig(typeDef: Option<seq<FieldDef>>, existingConfig: Json, existingSecure: Json, update: Json)
    returns (r: Result)
    ensures typeDef.None? ==> r == Err(UnknownType)
    ensures typeDef.Some? && !update.Obj? ==> r == Err(InvalidInput)
    ensures typeDef.Some? && update.Obj? ==>
              r == Merge(typeDef.value,
                         if existingConfig.Obj? then existingConfig.fields else map[],
                         if existingSecure.Obj? then existingSecure.fields else map[],
                         update.fields)
  {
    if typeDef.None? {
      return Err(UnknownType);
    }
    if !update.Obj? {
      return Err(InvalidInput);
    }
    var fields, input := typeDef.value, update.fields;
    var cfg, sec := AsObject(existingConfig), AsObject(existingSecure);
    var config: Part, secure: Part := map[], map[];
    for k := 0 to |fields|
      invariant Merge(fields[..k], cfg, sec, input) == Ok(config, secure)
    {
      var f := fields[k];
      assert fields[..k + 1][..k] == fields[..k];
      if f.key in input {
        var v := input[f.key];
        if f.secret {
          if !KeepsSecret(v) {
            secure := secure[f.key := v];
          } else if f.key in sec {
            secure := secure[f.key := sec[f.key]];
          }
        } else {
          config := config[f.key := v];
        }
      } else if f.secret {
        if f.key in sec {
          secure := secure[f.key := sec[f.key]];
        }
      } else if f.key in cfg {
        config := config[f.key := cfg[f.key]];
      }
    }
    assert fields[..|fields|] == fields;
    return Ok(config, secure);
  }

  function AsObject(j: Json): Part {
    if j.Obj? then j.fields else map[]
  }

  // ----- what the parts hold -----

  ghost predicate DistinctKeys(fields: seq<FieldDef>) {
    fields == [] ||
    (DistinctKeys(fields[..|fields| - 1]) && forall f :: f in fields[..|fields| - 1] ==> f.key != fields[|fields| - 1].key)
  }

  lemma {:induction false} KeyDetermines(fields: seq<FieldDef>, f: FieldDef, g: FieldDef)
    requires DistinctKeys(fields) && f in fields && g in fields && f.key == g.key
    ensures f == g
    decreases fields
  {
    var init, last := fields[..|fields| - 1], fields[|fields| - 1];
    assert fields == init + [last];
    if f in init && g in init {
      KeyDetermines(init, f, g);
    }
  }

  /** The value a result holds for a field. */
  ghost function Held(f: FieldDef, config: Part, secure: Part): Option<Json> {
    var part := if f.secret then secure else config;
    if f.key in part then Some(part[f.key]) else None
  }

  /** Only keys of fields, each in the part its secrecy calls for. */
  ghost predicate Sorted(fields: seq<FieldDef>, config: Part, secure: Part) {
    && (forall k :: k in config ==> exists f :: f in fields && f.key == k && !f.secret)
    && (forall k :: k in secure ==> exists f :: f in fields && f.key == k && f.secret)
  }

  lemma SortedGrows(init: seq<FieldDef>, last: FieldDef, before: Result, r: Result)
    requires before.Ok? && Sorted(init, before.config, before.secure)
    requires r == before || exists v :: r == Put(before, last, v)
    ensures Sorted(init + [last], r.config, r.secure)
  {
    forall k | k in before.config ensures exists f :: f in init + [last] && f.key == k && !f.secret {
      var f :| f in init && f.key == k && !f.secret;
      assert f in init + [last];
    }
    forall k | k in before.secure ensures exists f :: f in init + [last] && f.key == k && f.secret {
      var f :| f in init && f.key == k && f.secret;
      assert f in init + [last];
    }
    assert last in init + [last];
  }

  lemma {:induction false} SplitSorts(fields: seq<FieldDef>, input: Part)
    requires Split(fields, input).Ok?
    ensures Sorted(fields, Split(fields, input).config, Split(fields, input).secure)
    decreases fields
  {
    if fields != [] {
      var init, last := fields[..|fields| - 1], fields[|fields| - 1];
      SplitSorts(init, input);
      SortedGrows(init, last, Split(init, input), Split(fields, input));
      assert fields == init + [last];
    }
  }

  /** The field is given, or has a usable default, or is not needed. */
  ghost predicate Satisfied(f: FieldDef, input: Part) {
    || f.key in input
    || (f.default.Some? && (f.kind == Number ==> ParseI64(f.default.value).Some?))
    || (f.default.None? && !f.required)
  }

  /** Nothing in the result belongs to a key that is no field's. */
  lemma NotHeldElsewhere(fields: seq<FieldDef>, config: Part, secure: Part, f: FieldDef)
    requires Sorted(fields, config, secure) && forall g :: g in fields ==> g.key != f.key
    ensures Held(f, config, secure) == None
  {
  }

  lemma PutHolds(before: Result, last: FieldDef, v: Json, f: FieldDef)
    requires before.Ok? && (f == last || f.key != last.key)
    ensures var r := Put(before, last, v);
            r.Ok? && Held(f, r.config, r.secure) == if f == last then Some(v) else Held(f, before.config, before.secure)
  {
  }

  /** After a split, each field holds the value given, else its default, a number where the
      field is one, else nothing. */
  lemma {:induction false} SplitHolds(fields: seq<FieldDef>, input: Part, f: FieldDef)
    requires DistinctKeys(fields) && Split(fields, input).Ok? && f in fields
    ensures Satisfied(f, input)
    ensures var held := Held(f, Split(fields, input).config, Split(fields, input).secure);
            if f.key in input then held == Some(input[f.key])
            else if f.default.None? then held == None
            else if f.kind == Number then held == Some(Num(ParseI64(f.default.value).value))
            else held == Some(Str(f.default.value))
    decreases fields
  {
    var init, last := fields[..|fields| - 1], fields[|fields| - 1];
    assert fields == init + [last];
    if f in init {
      SplitHolds(init, input, f);
    } else {
      SplitSorts(init, input);
      NotHeldElsewhere(init, Split(init, input).config, Split(init, input).secure, f);
    }
  }

  lemma {:induction false} MergeSorts(fields: seq<FieldDef>, config: Part, secure: Part, update: Part)
    ensures var r := Merge(fields, config, secure, update);
            r.Ok? && Sorted(fields, r.config, r.secure)
    decreases fields
  {
    if fields != [] {
      var init, last := fields[..|fields| - 1], fields[|fields| - 1];
      MergeSorts(init, config, secure, update);
      SortedGrows(init, last, Merge(init, config, secure, update), Merge(fields, config, secure, update));
      assert fields == init + [last];
    }
  }

  /** The update gives the field a value to take: any value, but for a secret not the empty string. */
  ghost predicate Overrides(f: FieldDef, update: Part) {
    f.key in update && !(f.secret && update[f.key] == Str(""))
  }

  /** After a merge, each field holds the value the update gives it, and otherwise exactly what
      it held before. */
  lemma {:induction false} MergeHolds(fields: seq<FieldDef>, config: Part, secure: Part, update: Part, f: FieldDef)
    requires DistinctKeys(fields) && f in fields
    ensures var r := Merge(fields, config, secure, update);
            && r.Ok?
            && (Overrides(f, update) ==> Held(f, r.config, r.secure) == Some(update[f.key]))
            && (!Overrides(f, update) ==> Held(f, r.config, r.secure) == Held(f, config, secure))
    decreases fields
  {
    var init, last := fields[..|fields| - 1], fields[|fields| - 1];
    assert fields == init + [last];
    MergeSorts(init, config, secure, update);
    var before := Merge(init, config, secure, update);
    if f in init {
      MergeHolds(init, config, secure, update, f);
    } else {
      NotHeldElsewhere(init, before.config, before.secure, f);
    }
    match Merged(last, config, secure, update)
    case Some(v) => PutHolds(before, last, v, f);
    case None =>
  }

  /** Two results that sort the same fields and agree on each are the same. */
  lemma SameHeldSame(fields: seq<FieldDef>, c: Part, s: Part, c': Part, s': Part)
    requires Sorted(fields, c, s) && Sorted(fields, c', s')
    requires forall f :: f in fields ==> Held(f, c, s) == Held(f, c', s')
    ensures c == c' && s == s'
  {
    forall k ensures (k in c <==> k in c') && (k in c ==> c[k] == c'[k]) {
      if k in c {
        var f :| f in fields && f.key == k && !f.secret;
        assert Held(f, c, s) == Held(f, c', s');
      }
      if k in c' {
        var f :| f in fields && f.key == k && !f.secret;
        assert Held(f, c, s) == Held(f, c', s');
      }
    }
    forall k ensures (k in s <==> k in s') && (k in s ==> s[k] == s'[k]) {
      if k in s {
        var f :| f in fields && f.key == k && f.secret;
        assert Held(f, c, s) == Held(f, c', s');
      }
      if k in s' {
        var f :| f in fields && f.key == k && f.secret;
        assert Held(f, c, s) == Held(f, c', s');
      }
    }
  }

  // ----- the laws -----

  /** An update without its empty-string secrets. */
  ghost function Effective(fields: seq<FieldDef>, update: Part): Part {
    map k | k in update && !(exists f :: f in fields && f.key == k && f.secret && update[k] == Str("")) :: update[k]
  }

  lemma EffectiveAt(fields: seq<FieldDef>, update: Part, f: FieldDef)
    requires DistinctKeys(fields) && f in fields
    ensures f.key in Effective(fields, update) <==> Overrides(f, update)
  {
    forall g | g in fields && g.key == f.key ensures g == f {
      KeyDetermines(fields, f, g);
    }
  }

  /** A split succeeds exactly when every field is satisfied. */
  lemma {:induction false} SplitOkIff(fields: seq<FieldDef>, input: Part)
    ensures Split(fields, input).Ok? <==> forall f :: f in fields ==> Satisfied(f, input)
    decreases fields
  {
    if fields != [] {
      var init, last := fields[..|fields| - 1], fields[|fields| - 1];
      SplitOkIff(init, input);
      assert fields == init + [last];
      assert Satisfied(last, input) <==> !Resolve(last, input).Bad?;
      assert last in fields;
    }
  }

  /** The error of a failed split is about the first field not satisfied: its default is no
      number, or it is required and missing. */
  lemma {:induction false} SplitFailsAtFirst(fields: seq<FieldDef>, input: Part) returns (k: nat)
    requires Split(fields, input).Err?
    ensures k < |fields| && !Satisfied(fields[k], input)
    ensures Split(fields, input).error ==
            if fields[k].default.Some? then InvalidInput else MissingRequiredField(fields[k].key)
    ensures forall f :: f in fields[..k] ==> Satisfied(f, input)
    decreases fields
  {
    var init, last := fields[..|fields| - 1], fields[|fields| - 1];
    if Split(init, input).Err? {
      k := SplitFailsAtFirst(init, input);
      assert init[..k] == fields[..k];
    } else {
      k := |fields| - 1;
      SplitOkIff(init, input);
    }
  }

  /** Merging an update into a split configuration is splitting the original input
      overridden by the update, less its empty-string secrets. */
  lemma MergeIsSplitOfOverride(fields: seq<FieldDef>, input: Part, update: Part)
    requires DistinctKeys(fields) && Split(fields, input).Ok?
    ensures var r := Split(fields, input);
            Merge(fields, r.config, r.secure, update) == Split(fields, input + Effective(fields, update))
  {
    var r, over := Split(fields, input), input + Effective(fields, update);
    forall f | f in fields ensures Satisfied(f, over) {
      SplitHolds(fields, input, f);
    }
    SplitOkIff(fields, over);
    SplitSorts(fields, over);
    MergeSorts(fields, r.config, r.secure, update);
    var a, b := Merge(fields, r.config, r.secure, update), Split(fields, over);
    forall f | f in fields ensures Held(f, a.config, a.secure) == Held(f, b.config, b.secure) {
      EffectiveAt(fields, update, f);
      SplitHolds(fields, input, f);
      SplitHolds(fields, over, f);
      MergeHolds(fields, r.config, r.secure, update, f);
    }
    SameHeldSame(fields, a.config, a.secure, b.config, b.secure);
  }

  /** Two merges in a row are one merge of the combined update. */
  lemma MergesCompose(fields: seq<FieldDef>, config: Part, secure: Part, first: Part, second: Part)
    requires DistinctKeys(fields)
    ensures var r := Merge(fields, config, secure, first);
            && r.Ok?
            && Merge(fields, r.config, r.secure, second) ==
               Merge(fields, config, secure, first + Effective(fields, second))
  {
    var r, both := Merge(fields, config, secure, first), first + Effective(fields, second);
    MergeSorts(fields, config, secure, first);
    MergeSorts(fields, r.config, r.secure, second);
    MergeSorts(fields, config, secure, both);
    var a, b := Merge(fields, r.config, r.secure, second), Merge(fields, config, secure, both);
    forall f | f in fields ensures Held(f, a.config, a.secure) == Held(f, b.config, b.secure) {
      EffectiveAt(fields, second, f);
      MergeHolds(fields, config, secure, first, f);
      MergeHolds(fields, r.config, r.secure, second, f);
      MergeHolds(fields, config, secure, both, f);
    }
    SameHeldSame(fields, a.config, a.secure, b.config, b.secure);
  }

  /** Repeating a merge changes nothing. */
  lemma MergeIdempotent(fields: seq<FieldDef>, config: Part, secure: Part, update: Part)
    requires DistinctKeys(fields)
    ensures var r := Merge(fields, config, secure, update);
            r.Ok? && Merge(fields, r.config, r.secure, update) == r
  {
    MergesCompose(fields, config, secure, update, update);
    assert update + Effective(fields, update) == update;
  }

  /** No secret key ever lands in the plain part, and no plain key in the secret one. */
  lemma SecretsStaySecret(fields: seq<FieldDef>, config: Part, secure: Part, r: Result, f: FieldDef)
    requires DistinctKeys(fields) && f in fields && r.Ok?
    requires (exists input :: r == Split(fields, input)) || (exists update :: r == Merge(fields, config, secure, update))
    ensures if f.secret then f.key !in r.config else f.key !in r.secure
  {
    if input :| r == Split(fields, input) {
      SplitSorts(fields, input);
    } else {
      var update :| r == Merge(fields, config, secure, update);
      MergeSorts(fields, config, secure, update);
    }
    forall g | g in fields && g.key == f.key ensures g == f {
      KeyDetermines(fields, f, g);
    }
  }
}
