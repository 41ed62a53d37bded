/**
 INIReader: the name/value store that the INI parser fills, with case-insensitive keys of the form
 "section=name".
 */
module IniReader {
  import opened Common

  type Values = map<string, string>

  // tolower in the "C" locale.
  function LowerChar(c: char): char {
    if 'A' <= c <= 'Z' then c - 'A' + 'a' else c
  }

  function Lower(s: string): (r: string)
    ensures |r| == |s| && forall i | 0 <= i < |s| :: r[i] == LowerChar(s[i])
  {
    seq(|s|, i requires 0 <= i < |s| => LowerChar(s[i]))
  }

  function MakeKey(section: string, name: string): string {
    Lower(section + "=" + name)
  }

  // Keys agree up to the case of ASCII letters.
  lemma LowerAgreesIff(a: string, b: string)
    ensures Lower(a) == Lower(b)
            <==> && |a| == |b|
                 && forall i | 0 <= i < |a| ::
                   || a[i] == b[i]
                   || ('A' <= a[i] <= 'Z' && b[i] as int == a[i] as int + 32)
                   || ('A' <= b[i] <= 'Z' && a[i] as int == b[i] as int + 32)
  {
    if Lower(a) == Lower(b) {
      forall i | 0 <= i < |a|
        ensures LowerChar(a[i]) == LowerChar(b[i])
      {
        assert Lower(a)[i] == Lower(b)[i];
      }
    }
  }

  function Get(values: Values, section: string, name: string, defaultValue: string): string {
    var key := MakeKey(section, name);
    if key in values then values[key] else defaultValue
  }

  predicate HasValue(values: Values, section: string, name: string) {
    MakeKey(section, name) in values
  }

  // The store after one name/value pair: a repeated name gets a further line.
  function Added(values: Values, section: string, name: string, value: string): Values {
    var key := MakeKey(section, name);
    var before := if key in values then values[key] else "";
    values[key := (if before != "" then before + "\n" else "") + value]
  }

  predicate IsPrefix(p: string, s: string) { |p| <= |s| && s[..|p|] == p }

  // --------------------------------------------------------------------------
  // The order of the keys
  // --------------------------------------------------------------------------

  // Lexicographic order, as std::map<std::string, ...> sorts its keys.
  predicate LessEq(a: string, b: string) {
    a == "" || (b != "" && (a[0] < b[0] || (a[0] == b[0] && LessEq(a[1..], b[1..]))))
  }

  // a is smaller at the first position where the two differ.
  ghost predicate DiffersBelow(a: string, b: string) {
    exists k | 0 <= k < |a| && k < |b| :: a[..k] == b[..k] && a[k] < b[k]
  }

  lemma {:induction false} LessEqIff(a: string, b: string)
    ensures LessEq(a, b) <==> IsPrefix(a, b) || DiffersBelow(a, b)
  {
    if a != "" && b != "" {
      if a[0] == b[0] {
        LessEqIff(a[1..], b[1..]);
        DiffersLater(a, b);
        PrefixLater(a, b);
      } else {
        FirstDiffers(a, b);
      }
    }
  }

  lemma PrefixLater(a: string, b: string)
    requires a != "" && b != "" && a[0] == b[0]
    ensures IsPrefix(a, b) <==> IsPrefix(a[1..], b[1..])
  {
    var a', b' := a[1..], b[1..];
    assert a == [a[0]] + a';
    if |a| <= |b| {
      assert b[..|a|] == [b[0]] + b'[..|a'|] && b[..|a|][1..] == b'[..|a'|];
    }
  }

  lemma DiffersLater(a: string, b: string)
    requires a != "" && b != "" && a[0] == b[0]
    ensures DiffersBelow(a, b) <==> DiffersBelow(a[1..], b[1..])
  {
    var a', b' := a[1..], b[1..];
    if k :| 0 <= k < |a'| && k < |b'| && a'[..k] == b'[..k] && a'[k] < b'[k] {
      assert a[..k + 1] == [a[0]] + a'[..k] == b[..k + 1] && a[k + 1] < b[k + 1];
    }
    if k :| 0 <= k < |a| && k < |b| && a[..k] == b[..k] && a[k] < b[k] {
      assert a'[..k - 1] == a[..k][1..] == b[..k][1..] == b'[..k - 1] && a'[k - 1] < b'[k - 1];
    }
  }

  lemma FirstDiffers(a: string, b: string)
    requires a != "" && b != "" && a[0] != b[0]
    ensures !IsPrefix(a, b) && (DiffersBelow(a, b) <==> a[0] < b[0])
  {
    assert |a| <= |b| ==> b[..|a|][0] == b[0];
    assert a[..0] == b[..0];
    forall k | 0 < k < |a| && k < |b|
      ensures a[..k] != b[..k]
    {
      assert a[..k][0] == a[0] && b[..k][0] == b[0];
    }
  }

  lemma {:induction false} LessEqTotal(a: string, b: string)
    ensures LessEq(a, b) || LessEq(b, a)
  {
    if a != "" && b != "" && a[0] == b[0] {
      LessEqTotal(a[1..], b[1..]);
    }
  }

  lemma {:induction false} LessEqTransitive(a: string, b: string, c: string)
    requires LessEq(a, b) && LessEq(b, c)
    ensures LessEq(a, c)
  {
    if a != "" && a[0] == b[0] == c[0] {
      LessEqTransitive(a[1..], b[1..], c[1..]);
    }
  }

  lemma {:induction false} PrefixIsLess(p: string, s: string)
    requires IsPrefix(p, s)
    ensures LessEq(p, s)
  {
    if p != "" {
      assert s[..|p|][0] == p[0] && s[1..][..|p| - 1] == p[1..];
      PrefixIsLess(p[1..], s[1..]);
    }
  }

  // What lies between a prefix and a string with that prefix has the prefix as well.
  lemma {:induction false} BetweenHasPrefix(p: string, k: string, s: string)
    requires IsPrefix(p, s) && LessEq(p, k) && LessEq(k, s)
    ensures IsPrefix(p, k)
  {
    if p != "" {
      assert s[..|p|][0] == p[0] && s[1..][..|p| - 1] == p[1..];
      assert k[0] == p[0];
      BetweenHasPrefix(p[1..], k[1..], s[1..]);
      assert k == [k[0]] + k[1..] && p == [p[0]] + p[1..];
    }
  }

  // The first key at or after `key`, in order.
  ghost predicate IsLowerBound(values: Values, key: string, pos: Option<string>) {
    match pos
    case None => forall k | k in values :: !LessEq(key, k)
    case Some(p) => p in values && LessEq(key, p) && forall k | k in values && LessEq(key, k) :: LessEq(p, k)
  }

  method LowerBound(values: Values, key: string) returns (pos: Option<string>)
    ensures IsLowerBound(values, key, pos)
  {
    pos := None;
    var todo := values.Keys;
    while todo != {}
      invariant todo <= values.Keys
      invariant pos.None? ==> forall k | k in values && k !in todo :: !LessEq(key, k)
      invariant pos.Some? ==>
                  && pos.value in values && LessEq(key, pos.value)
                  && forall k | k in values && k !in todo && LessEq(key, k) :: LessEq(pos.value, k)
      decreases |todo|
    {
      var k :| k in todo;
      if LessEq(key, k) && (pos.None? || LessEq(k, pos.value)) {
        if pos.Some? {
          forall k' | k' in values && k' !in todo && LessEq(key, k')
            ensures LessEq(k, k')
          {
            LessEqTransitive(k, pos.value, k');
          }
        }
        LessEqTotal(k, k);
        pos := Some(k);
      } else if pos.Some? {
        LessEqTotal(k, pos.value);
      }
      todo := todo - {k};
    }
  }

  ghost predicate Ascending(keys: seq<string>) {
    forall i, j | 0 <= i < j < |keys| :: LessEq(keys[i], keys[j]) && keys[i] != keys[j]
  }

  lemma {:induction false} PrefixKeepsOrder(p: string, a: string, b: string)
    ensures LessEq(p + a, p + b) <==> LessEq(a, b)
    ensures p + a == p + b <==> a == b
  {
    if p == "" {
      assert p + a == a && p + b == b;
    } else {
      assert (p + a)[1..] == p[1..] + a && (p + b)[1..] == p[1..] + b;
      assert p + a == [p[0]] + (p[1..] + a) && p + b == [p[0]] + (p[1..] + b);
      PrefixKeepsOrder(p[1..], a, b);
    }
  }

  // The keys as an iteration over the map meets them.
  method InOrder(values: Values) returns (order: seq<string>)
    ensures Ascending(order)
    ensures forall k :: k in order <==> k in values
  {
    hide LessEq;
    order := [];
    var rest := values;
    while rest != map[]
      invariant Ascending(order)
      invariant forall k :: k in values <==> k in order || k in rest
      invariant forall k, k' | k in order && k' in rest :: LessEq(k, k') && k != k'
      decreases |rest|
    {
      var pos := LowerBound(rest, "");
      EmptyIsLess(rest);
      var least := pos.value;
      order := order + [least];
      rest := rest - {least};
    }
  }

  lemma EmptyIsLess(values: Values)
    ensures forall k | k in values :: LessEq("", k)
    ensures values != map[] ==> exists k :: k in values
  {
  }

  class Reader {
    var values: Values

    constructor ()
      ensures values == map[]
    {
      values := map[];
    }

    method ValueHandler(section: string, name: string, value: string)
      modifies this
      ensures values == Added(old(values), section, name, value)
    {
      var key := MakeKey(section, name);
      if key !in values {
        values := values[key := ""];
      }
      if |values[key]| > 0 {
        values := values[key := values[key] + "\n"];
      }
      values := values[key := values[key] + value];
    }

    // The names in a section, in order: the keys with its prefix, the prefix cut off.
    method Keys(section: string) returns (keys: seq<string>)
      ensures Ascending(keys)
      ensures forall n :: n in keys <==> MakeKey(section, "") + n in values
    {
      hide LessEq, MakeKey;
      var prefix := MakeKey(section, "");
      var order := InOrder(values);
      keys := [];
      for i := 0 to |order|
        invariant Ascending(keys)
        invariant forall n :: n in keys <==> prefix + n in order[..i]
      {
        assert order[..i + 1] == order[..i] + [order[i]];
        var k := order[i];
        if IsPrefix(prefix, k) {
          assert k == prefix + k[|prefix|..];
          ghost var name := k[|prefix|..];
          forall m | m in keys
            ensures LessEq(m, name) && m != name
          {
            assert prefix + m in order[..i];
            PrefixKeepsOrder(prefix, m, name);
          }
          keys := keys + [k[|prefix|..]];
        }
      }
      assert order[..|order|] == order;
    }

    // One look at the first key that is not before the section's prefix is enough.
    method HasSection(section: string) returns (b: bool)
      ensures b <==> exists n :: MakeKey(section, "") + n in values
    {
      var key := MakeKey(section, "");
      var pos := LowerBound(values, key);
      FirstKeyDecides(values, key, pos);
      if pos.None? {
        return false;
      }
      b := IsPrefix(key, pos.value);
    }
  }

  lemma FirstKeyDecides(values: Values, key: string, pos: Option<string>)
    requires IsLowerBound(values, key, pos)
    ensures (exists n :: key + n in values) <==> pos.Some? && IsPrefix(key, pos.value)
  {
    if exists n :: key + n in values {
      var n :| key + n in values;
      PrefixIsLess(key, key + n);
      BetweenHasPrefix(key, pos.value, key + n);
    }
    if pos.Some? && IsPrefix(key, pos.value) {
      assert pos.value == key + pos.value[|key|..];
    }
  }
}
