/** The sysctl rules: user space pushes padded keys and packed values, the kernel looks one up per access. */
module SysctlRules {
  import opened BpfMap
  import opened Bytes

  const KEY_LEN: nat := 256
  const RULES_MAX: nat := 1024
  const VALUE_LEN: nat := 264

  datatype Parameter = Parameter(blockWrite: bool, blockRead: bool, overrideWith: seq<Byte>)

  /** The fields of the packed value, as the kernel structure lays them out. */
  datatype Rule = Rule(overrideLen: nat, blockWrite: bool, blockRead: bool, value: seq<Byte>)

  function Flag(b: bool): nat { if b then 1 else 0 }

  function Packed(p: Parameter): (b: seq<Byte>)
    ensures |b| == VALUE_LEN
  {
    LittleEndian(|p.overrideWith| % 0x1_0000_0000, 4) + LittleEndian(Flag(p.blockWrite), 2)
    + LittleEndian(Flag(p.blockRead), 2) + Pad(p.overrideWith, KEY_LEN)
  }

  function KernelView(b: seq<Byte>): Rule
    requires |b| == VALUE_LEN
  {
    Rule(Value(b[0..4]), Value(b[4..6]) != 0, Value(b[6..8]) != 0, b[8..264])
  }

  /** Where the fields of the packed value stand: length, write and read flag, padded override. */
  lemma PackedLayout(p: Parameter)
    ensures var b := Packed(p);
            && b[0..4] == LittleEndian(|p.overrideWith| % 0x1_0000_0000, 4)
            && b[4..6] == LittleEndian(if p.blockWrite then 1 else 0, 2)
            && b[6..8] == LittleEndian(if p.blockRead then 1 else 0, 2)
            && b[8..264] == Pad(p.overrideWith, 256)
  {
    hide LittleEndian, Pad;
  }

  /** Any value a rule may hold: a flag is set when one of its two bytes is not zero. */
  lemma KernelViewExactly(b: seq<Byte>)
    requires |b| == VALUE_LEN
    ensures var rule := KernelView(b);
            && rule.overrideLen == (b[0] as int) + 0x100 * (b[1] as int)
                                   + 0x1_0000 * (b[2] as int) + 0x100_0000 * (b[3] as int)
            && (rule.blockWrite <==> b[4] != 0 || b[5] != 0)
            && (rule.blockRead <==> b[6] != 0 || b[7] != 0)
            && rule.value == b[8..]
  {
    hide Value;
    FourByteValue(b[0..4]);
    TwoByteValue(b[4..6]);
    TwoByteValue(b[6..8]);
  }

  /** The kernel reads exactly what user space packed. */
  lemma KernelReadsPacked(p: Parameter)
    ensures KernelView(Packed(p)) ==
            Rule(|p.overrideWith| % 0x1_0000_0000, p.blockWrite, p.blockRead, Pad(p.overrideWith, KEY_LEN))
  {
    hide Packed, LittleEndian, Value;
    PackedLayout(p);
    WordBounds();
    ValueOfLittleEndian(|p.overrideWith| % 0x1_0000_0000, 4);
    ValueOfLittleEndian(Flag(p.blockWrite), 2);
    ValueOfLittleEndian(Flag(p.blockRead), 2);
  }

  /** Fills a 264-byte buffer field by field. */
  method MarshalBinary(p: Parameter) returns (b: array<Byte>)
    ensures fresh(b) && b[..] == Packed(p)
  {
    b := new Byte[VALUE_LEN](_ => 0);
    var len := LittleEndian(|p.overrideWith| % 0x1_0000_0000, 4);
    assert LittleEndian(0, 2) == [0, 0] == Zeros(2);
    PutBytes(b, 0, len);
    assert b[..] == len + Zeros(260);
    if p.blockWrite {
      PutBytes(b, 4, LittleEndian(1, 2));
    }
    ghost var head := len + LittleEndian(Flag(p.blockWrite), 2);
    assert b[..] == head + Zeros(258);
    if p.blockRead {
      PutBytes(b, 6, LittleEndian(1, 2));
    }
    head := head + LittleEndian(Flag(p.blockRead), 2);
    assert b[..] == head + Zeros(256);
    if |p.overrideWith| > 0 {
      PutBytes(b, 8, if |p.overrideWith| <= KEY_LEN then p.overrideWith else p.overrideWith[..KEY_LEN]);
    }
    assert b[..] == head + Pad(p.overrideWith, KEY_LEN);
  }

  method PutBytes(b: array<Byte>, off: nat, s: seq<Byte>)
    requires off + |s| <= b.Length
    modifies b
    ensures b[..] == old(b[..])[..off] + s + old(b[..])[off + |s|..]
  {
    for i := 0 to |s|
      invariant forall k :: 0 <= k < i ==> b[off + k] == s[k]
      invariant forall k :: 0 <= k < off || off + i <= k < b.Length ==> b[k] == old(b[k])
    {
      b[off + i] := s[i];
    }
  }

  // ---------- the rule tables ----------

  datatype Options = Options(list: map<seq<Byte>, Parameter>, default: Parameter)

  function RuleKey(name: seq<Byte>): (k: seq<Byte>)
    ensures |k| == KEY_LEN
  {
    Pad(name, KEY_LEN)
  }

  /** Names that a padded key can tell apart. */
  ghost predicate Nameable(list: map<seq<Byte>, Parameter>) {
    forall name :: name in list ==> NulFree(name) && |name| <= KEY_LEN
  }

  lemma KeyInjective(x: seq<Byte>, y: seq<Byte>)
    requires NulFree(x) && NulFree(y) && |x| <= KEY_LEN && |y| <= KEY_LEN
    ensures RuleKey(x) == RuleKey(y) <==> x == y
  {
    PadKeeps(x, KEY_LEN);
    PadKeeps(y, KEY_LEN);
  }

  function RuleKeys(names: set<seq<Byte>>): set<seq<Byte>> {
    set name | name in names :: RuleKey(name)
  }

  /** The table holds the padded keys of `names` and nothing else, each with the value of a name it stands for. */
  ghost predicate Pushed(
    table: map<seq<Byte>, seq<Byte>>, list: map<seq<Byte>, Parameter>, names: set<seq<Byte>>)
  {
    && names <= list.Keys
    && table.Keys == RuleKeys(names)
    && forall k :: k in table ==> exists name :: name in names && k == RuleKey(name) && table[k] == Packed(list[name])
  }

  lemma PushedOneMore(
    table: map<seq<Byte>, seq<Byte>>, list: map<seq<Byte>, Parameter>, names: set<seq<Byte>>, name: seq<Byte>)
    requires Pushed(table, list, names) && name in list
    ensures RuleKeys(names + {name}) == RuleKeys(names) + {RuleKey(name)}
    ensures Pushed(table[RuleKey(name) := Packed(list[name])], list, names + {name})
  {
    hide Packed, RuleKey;
    var names' := names + {name};
    assert name in names';
    assert RuleKeys(names') == RuleKeys(names) + {RuleKey(name)};
    forall k | k in table && k != RuleKey(name)
      ensures exists n :: n in names' && k == RuleKey(n) && table[k] == Packed(list[n])
    {
      var n :| n in names && k == RuleKey(n) && table[k] == Packed(list[n]);
      assert n in names';
    }
  }

  lemma PushedNothing(list: map<seq<Byte>, Parameter>)
    ensures Pushed(map[], list, {})
  {
  }

  /** One key too many: the entry that the kernel map refuses proves that the list needs more than 1024 keys. */
  lemma TooManyKeys(loaded: set<seq<Byte>>, all: set<seq<Byte>>, name: seq<Byte>)
    requires loaded <= all && name in all && RuleKey(name) !in RuleKeys(loaded)
    ensures |RuleKeys(loaded)| < |RuleKeys(all)|
  {
    SubsetSize(RuleKeys(loaded) + {RuleKey(name)}, RuleKeys(all));
  }

  /** Names that a key can tell apart need one key each. */
  lemma {:induction false} OneKeyEach(list: map<seq<Byte>, Parameter>, names: set<seq<Byte>>)
    requires Nameable(list) && names <= list.Keys
    ensures |RuleKeys(names)| == |names|
  {
    hide RuleKey;
    if names != {} {
      var name :| name in names;
      var rest := names - {name};
      OneKeyEach(list, rest);
      if RuleKey(name) in RuleKeys(rest) {
        var other :| other in rest && RuleKey(other) == RuleKey(name);
        KeyInjective(other, name);
      }
      assert RuleKeys(names) == RuleKeys(rest) + {RuleKey(name)};
    }
  }

  /** Pushes the list in an arbitrary order; fails when the kernel map refuses an entry. */
  method LoadSysCtlParameters(options: Options)
    returns (ok: bool, table: map<seq<Byte>, seq<Byte>>, default: Option<seq<Byte>>)
    ensures ok <==> |RuleKeys(options.list.Keys)| <= 1024
    ensures ok ==> Pushed(table, options.list, options.list.Keys) && default == Some(Packed(options.default))
  {
    hide RuleKey, Packed, Pushed, RuleKeys;
    table, default := map[], None;
    var todo := options.list.Keys;
    ghost var loaded := {};
    PushedNothing(options.list);
    while todo != {}
      invariant todo !! loaded && todo + loaded == options.list.Keys
      invariant Pushed(table, options.list, loaded) && |table| <= RULES_MAX
      decreases todo
    {
      var name :| name in todo;
      var value := MarshalBinary(options.list[name]);
      PushedKeys(table, options.list, loaded);
      PushedOneMore(table, options.list, loaded, name);
      var bytes := value[..];
      if RuleKey(name) !in table && |table| >= RULES_MAX {
        TooManyKeys(loaded, options.list.Keys, name);
        return false, table, None;
      }
      table := Update(table, RULES_MAX, RuleKey(name), bytes);
      todo, loaded := todo - {name}, loaded + {name};
    }
    assert loaded == options.list.Keys;
    PushedKeys(table, options.list, loaded);
    var d := MarshalBinary(options.default);
    ok, default := true, Some(d[..]);
  }

  lemma PushedKeys(table: map<seq<Byte>, seq<Byte>>, list: map<seq<Byte>, Parameter>, names: set<seq<Byte>>)
    requires Pushed(table, list, names)
    ensures table.Keys == RuleKeys(names) && |table| == |RuleKeys(names)|
  {
    assert |table| == |table.Keys|;
  }

  // ---------- the two sides agree ----------

  /** The kernel's choice: the listed value under the buffer's first 256 bytes, else the default. */
  function Decision(table: map<seq<Byte>, seq<Byte>>, default: Option<seq<Byte>>, key: seq<Byte>): Option<seq<Byte>> {
    if key in table then Some(table[key]) else default
  }

  /** User space's choice, by name. */
  function Choice(options: Options, name: seq<Byte>): Parameter {
    if name in options.list then options.list[name] else options.default
  }

  /** Kernel and user space choose the same rule for every name a padded key can hold. */
  lemma SameRule(options: Options, table: map<seq<Byte>, seq<Byte>>, name: seq<Byte>)
    requires Nameable(options.list) && Pushed(table, options.list, options.list.Keys)
    requires NulFree(name) && |name| <= KEY_LEN
    ensures RuleKey(name) in table <==> name in options.list
    ensures Decision(table, Some(Packed(options.default)), RuleKey(name)) == Some(Packed(Choice(options, name)))
  {
    hide Packed, RuleKey;
    if RuleKey(name) in table {
      var other :|
        other in options.list && RuleKey(name) == RuleKey(other) && table[RuleKey(name)] == Packed(options.list[other]);
      KeyInjective(name, other);
    }
  }
}
