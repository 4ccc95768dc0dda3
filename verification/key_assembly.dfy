/**
  How `LockManager` turns an intercepted call into the lock key:
  "lock:" + prefix, then one ":"-separated piece per `@LockKey` argument (or per
  listed field of it), in parameter order. Reflection is reduced to what it
  yields: each argument's rendering as text, and for an argument object the
  declared fields (with whether each is a `boolean`) and the text its public
  no-argument methods return.
 */
module KeyAssembly {
  import opened Options

  const KeyHead: string := "lock:"

  /** What reflection finds on an argument object. */
  datatype Bean = Bean(fields: map<string, bool>, getters: map<string, string>)

  /** An argument: `null`, or an object with its `String.valueOf` text and its reflective view. */
  datatype Arg = Null | Obj(text: string, bean: Bean)

  /** A parameter: whether it is annotated `@LockKey`, the annotation's `keyField` list, and the argument. */
  datatype Param = Param(keyed: bool, keyFields: seq<string>, arg: Arg)

  /** The intercepted call: the target's class name, the method name and the parameters in order. */
  datatype CallSite = CallSite(className: string, methodName: string, params: seq<Param>)

  /** The configured prefix, or "ClassName:methodName" when it is empty. */
  function Prefix(keyPrefix: string, site: CallSite): string {
    if keyPrefix == "" then site.className + ":" + site.methodName else keyPrefix
  }

  /** `StringBuilder.append(Object)`: "null" for a null argument. */
  function Render(a: Arg): string {
    match a
    case Null => "null"
    case Obj(text, _) => text
  }

  predicate IsAsciiLower(c: char) { 'a' <= c <= 'z' }
  predicate IsAsciiUpper(c: char) { 'A' <= c <= 'Z' }

  /** `Character.toUpperCase` on the ASCII letters; every other character is kept. */
  function ToUpper(c: char): char {
    if IsAsciiLower(c) then (c as int - 32) as char else c
  }

  function ToLower(c: char): char {
    if IsAsciiUpper(c) then (c as int + 32) as char else c
  }

  function GetterPrefix(isBoolean: bool): string {
    if isBoolean then "is" else "get"
  }

  /**
    `buildGetMethod`: "is" for a boolean field, "get" otherwise, then the
    field's first character upper-cased and the rest unchanged. Its only caller
    reaches it after the field was found, so the name is never empty.
   */
  function BuildGetMethod(field: string, isBoolean: bool): (r: string)
    requires |field| > 0
    ensures |r| == |field| + (if isBoolean then 2 else 3)
    ensures r[..|GetterPrefix(isBoolean)|] == GetterPrefix(isBoolean)
    ensures r[|GetterPrefix(isBoolean)|] == ToUpper(field[0])
    ensures r[|GetterPrefix(isBoolean)| + 1..] == field[1..]
  {
    GetterPrefix(isBoolean) + [ToUpper(field[0])] + field[1..]
  }

  /** The field a getter name stands for: the inverse of `BuildGetMethod`. */
  function FieldOfGetter(getter: string, isBoolean: bool): string
    requires |getter| > |GetterPrefix(isBoolean)|
  {
    var n := |GetterPrefix(isBoolean)|;
    [ToLower(getter[n])] + getter[n + 1..]
  }

  /** A field name that does not start with a capital letter is recovered from its getter name. */
  lemma GetterRoundTrip(field: string, isBoolean: bool)
    requires |field| > 0 && !IsAsciiUpper(field[0])
    ensures FieldOfGetter(BuildGetMethod(field, isBoolean), isBoolean) == field
  {
    var g := BuildGetMethod(field, isBoolean);
    var n := |GetterPrefix(isBoolean)|;
    assert ToLower(ToUpper(field[0])) == field[0];
    assert [ToLower(g[n])] + g[n + 1..] == [field[0]] + field[1..];
  }

  /** Such fields of one kind have distinct getter names exactly when the fields differ. */
  lemma GetterNamesDistinct(f1: string, f2: string, isBoolean: bool)
    requires |f1| > 0 && !IsAsciiUpper(f1[0])
    requires |f2| > 0 && !IsAsciiUpper(f2[0])
    ensures BuildGetMethod(f1, isBoolean) == BuildGetMethod(f2, isBoolean) <==> f1 == f2
  {
    GetterRoundTrip(f1, isBoolean);
    GetterRoundTrip(f2, isBoolean);
  }

  /**
    The value reflection reads for one `keyField`: the declared field, then its
    getter. Either lookup failing is caught and leaves the value empty. Java
    field names are never empty, so an empty name is never found.
   */
  function FieldValue(bean: Bean, field: string): string {
    if field != "" && field in bean.fields && BuildGetMethod(field, bean.fields[field]) in bean.getters
    then bean.getters[BuildGetMethod(field, bean.fields[field])]
    else ""
  }

  /** `getModelKey`: ":" and the field's value, for each listed field in order. */
  function ModelKey(bean: Bean, fields: seq<string>): string
    decreases |fields|
  {
    if |fields| == 0 then "" else ":" + FieldValue(bean, fields[0]) + ModelKey(bean, fields[1..])
  }

  /**
    What one parameter adds to the key; `None` when `getModelKey` is handed a
    `null` argument, whose `getClass()` throws a NullPointerException.
   */
  function ParamKey(p: Param): Option<string> {
    if !p.keyed then Some("")
    else if |p.keyFields| > 0 then
      if p.arg.Null? then None else Some(ModelKey(p.arg.bean, p.keyFields))
    else Some(":" + Render(p.arg))
  }

  /** The parameters' contributions appended in order, or `None` at the first exception. */
  function ParamsKey(ps: seq<Param>): Option<string>
    decreases |ps|
  {
    if |ps| == 0 then Some("")
    else match ParamKey(ps[0])
      case None => None
      case Some(head) =>
        match ParamsKey(ps[1..])
        case None => None
        case Some(tail) => Some(head + tail)
  }

  /** The lock key the interceptor builds for a call, or `None` if building it throws. */
  function AssembleKey(keyPrefix: string, site: CallSite): Option<string> {
    match ParamsKey(site.params)
    case None => None
    case Some(suffix) => Some(KeyHead + Prefix(keyPrefix, site) + suffix)
  }

  // ---- An independent description of the key: a list of pieces joined by ":" ----

  /** The pieces of the key each parameter contributes, flattened in parameter order. */
  function Pieces(ps: seq<Param>): seq<string>
    decreases |ps|
  {
    if |ps| == 0 then []
    else
      var p := ps[0];
      var own :=
        if !p.keyed then []
        else if |p.keyFields| == 0 then [Render(p.arg)]
        else if p.arg.Null? then []
        else FieldValues(p.arg.bean, p.keyFields);
      own + Pieces(ps[1..])
  }

  /** The value read for each listed field, in order. */
  function FieldValues(bean: Bean, fields: seq<string>): (vs: seq<string>)
    ensures |vs| == |fields|
    decreases |fields|
  {
    if |fields| == 0 then [] else [FieldValue(bean, fields[0])] + FieldValues(bean, fields[1..])
  }

  /** Some `@LockKey` parameter with key fields receives `null`. */
  predicate HasNullModel(ps: seq<Param>) {
    exists i :: 0 <= i < |ps| && ps[i].keyed && |ps[i].keyFields| > 0 && ps[i].arg.Null?
  }

  /** ":" before each piece. */
  function Joined(pieces: seq<string>): string
    decreases |pieces|
  {
    if |pieces| == 0 then "" else ":" + pieces[0] + Joined(pieces[1..])
  }

  lemma {:induction false} JoinedAppend(a: seq<string>, b: seq<string>)
    ensures Joined(a + b) == Joined(a) + Joined(b)
    decreases |a|
  {
    if |a| > 0 {
      assert (a + b)[0] == a[0];
      assert (a + b)[1..] == a[1..] + b;
      JoinedAppend(a[1..], b);
      calc {
        Joined(a + b);
        ":" + a[0] + Joined(a[1..] + b);
        ":" + a[0] + (Joined(a[1..]) + Joined(b));
        (":" + a[0] + Joined(a[1..])) + Joined(b);
      }
    } else {
      assert a + b == b;
    }
  }

  lemma {:induction false} ModelKeyJoined(bean: Bean, fields: seq<string>)
    ensures ModelKey(bean, fields) == Joined(FieldValues(bean, fields))
    decreases |fields|
  {
    if |fields| > 0 {
      ModelKeyJoined(bean, fields[1..]);
      var vs := FieldValues(bean, fields);
      assert vs[0] == FieldValue(bean, fields[0]);
      assert vs[1..] == FieldValues(bean, fields[1..]);
    }
  }

  /** The append loop builds the pieces joined by ":", unless a null model argument throws. */
  lemma {:induction false} ParamsKeyJoined(ps: seq<Param>)
    ensures ParamsKey(ps) == if HasNullModel(ps) then None else Some(Joined(Pieces(ps)))
    decreases |ps|
  {
    if |ps| > 0 {
      var p := ps[0];
      ParamsKeyJoined(ps[1..]);
      assert HasNullModel(ps) <==>
             (p.keyed && |p.keyFields| > 0 && p.arg.Null?) || HasNullModel(ps[1..]) by {
        if HasNullModel(ps[1..]) {
          var i :| 0 <= i < |ps[1..]| && ps[1..][i].keyed && |ps[1..][i].keyFields| > 0 && ps[1..][i].arg.Null?;
          assert ps[i + 1] == ps[1..][i];
        }
        if HasNullModel(ps) {
          var i :| 0 <= i < |ps| && ps[i].keyed && |ps[i].keyFields| > 0 && ps[i].arg.Null?;
          if i > 0 {
            assert ps[1..][i - 1] == ps[i];
          }
        }
      }
      if !HasNullModel(ps) {
        var own :=
          if !p.keyed then []
          else if |p.keyFields| == 0 then [Render(p.arg)]
          else FieldValues(p.arg.bean, p.keyFields);
        assert Pieces(ps) == own + Pieces(ps[1..]);
        JoinedAppend(own, Pieces(ps[1..]));
        if p.keyed && |p.keyFields| > 0 {
          assert !p.arg.Null?;
          ModelKeyJoined(p.arg.bean, p.keyFields);
          assert ParamKey(p) == Some(Joined(own));
        } else if p.keyed {
          assert Joined(own) == ":" + Render(p.arg) + Joined([]);
        }
      }
    }
  }

  /**
    The lock key is "lock:", the prefix (defaulting to "ClassName:methodName"),
    then ":" before every piece contributed by the `@LockKey` parameters, in order.
   */
  lemma AssembleKeyShape(keyPrefix: string, site: CallSite)
    ensures AssembleKey(keyPrefix, site) ==
            if HasNullModel(site.params) then None
            else Some(KeyHead + (if keyPrefix == "" then site.className + ":" + site.methodName else keyPrefix)
                      + Joined(Pieces(site.params)))
  {
    ParamsKeyJoined(site.params);
  }

  predicate ColonFree(s: string) {
    forall k :: 0 <= k < |s| ==> s[k] != ':'
  }

  /** The position of the first ':' in `s`, or `|s|` when there is none. */
  function FirstColon(s: string): nat
    decreases |s|
  {
    if |s| == 0 || s[0] == ':' then 0 else 1 + FirstColon(s[1..])
  }

  lemma {:induction false} FirstColonAfter(x: string, r: string)
    requires ColonFree(x)
    requires r == [] || r[0] == ':'
    ensures FirstColon(x + r) == |x|
    decreases |x|
  {
    if |x| == 0 {
      assert x + r == r;
    } else {
      assert (x + r)[0] == x[0];
      assert (x + r)[1..] == x[1..] + r;
      FirstColonAfter(x[1..], r);
    }
  }

  /** Cutting `x + r` at its first ':' when `x` has none and `r` is empty or starts with one. */
  lemma SplitAtColon(x1: string, r1: string, x2: string, r2: string)
    requires ColonFree(x1) && ColonFree(x2)
    requires r1 == [] || r1[0] == ':'
    requires r2 == [] || r2[0] == ':'
    requires x1 + r1 == x2 + r2
    ensures x1 == x2 && r1 == r2
  {
    var w := x1 + r1;
    FirstColonAfter(x1, r1);
    FirstColonAfter(x2, r2);
    assert x1 == w[..|x1|] && x2 == w[..|x2|];
    assert r1 == w[|x1|..] && r2 == w[|x2|..];
  }

  /** Joining colon-free pieces loses nothing: the pieces can be read back from the string. */
  lemma {:induction false} JoinedInjective(a: seq<string>, b: seq<string>)
    requires forall i :: 0 <= i < |a| ==> ColonFree(a[i])
    requires forall i :: 0 <= i < |b| ==> ColonFree(b[i])
    ensures Joined(a) == Joined(b) <==> a == b
    decreases |a|
  {
    if Joined(a) == Joined(b) && |a| > 0 && |b| > 0 {
      var ra := Joined(a[1..]);
      var rb := Joined(b[1..]);
      assert (":" + a[0] + ra)[1..] == a[0] + ra;
      assert (":" + b[0] + rb)[1..] == b[0] + rb;
      assert ra == [] || ra[0] == ':';
      assert rb == [] || rb[0] == ':';
      SplitAtColon(a[0], ra, b[0], rb);
      JoinedInjective(a[1..], b[1..]);
      assert a == [a[0]] + a[1..] && b == [b[0]] + b[1..];
    } else if Joined(a) == Joined(b) {
      assert |Joined(a)| == 0 <==> |a| == 0;
      assert |Joined(b)| == 0 <==> |b| == 0;
    }
  }

  /**
    Two calls of one method with one prefix get the same lock key exactly when
    their `@LockKey` pieces agree, provided no piece contains ':'.
   */
  lemma SameKeyIffSamePieces(keyPrefix: string, site1: CallSite, site2: CallSite)
    requires site1.className == site2.className && site1.methodName == site2.methodName
    requires !HasNullModel(site1.params) && !HasNullModel(site2.params)
    requires forall i :: 0 <= i < |Pieces(site1.params)| ==> ColonFree(Pieces(site1.params)[i])
    requires forall i :: 0 <= i < |Pieces(site2.params)| ==> ColonFree(Pieces(site2.params)[i])
    ensures AssembleKey(keyPrefix, site1) == AssembleKey(keyPrefix, site2) <==>
            Pieces(site1.params) == Pieces(site2.params)
  {
    AssembleKeyShape(keyPrefix, site1);
    AssembleKeyShape(keyPrefix, site2);
    var head := KeyHead + Prefix(keyPrefix, site1);
    JoinedInjective(Pieces(site1.params), Pieces(site2.params));
    if AssembleKey(keyPrefix, site1) == AssembleKey(keyPrefix, site2) {
      assert head + Joined(Pieces(site1.params)) == head + Joined(Pieces(site2.params));
      assert Joined(Pieces(site1.params)) == (head + Joined(Pieces(site1.params)))[|head|..];
      assert Joined(Pieces(site2.params)) == (head + Joined(Pieces(site2.params)))[|head|..];
    }
  }
}
