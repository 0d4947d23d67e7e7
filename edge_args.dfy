/**
 * Edge-node configuration of NetMirage Core (src/netmirage-core/main.c):
 * the `--edge-node` argument splitter, addEdgeNode, and the choice of setup
 * file groups that describe edge nodes.
 *
 * An `--edge-node` argument is an IPv4 address followed by comma-separated
 * `name=value` options; a name selects `iface`, `mac` or `vsubnet` when it
 * is a nonempty prefix of that keyword.  The splitter works in place on the
 * argument: it overwrites each ',' with a NUL and keeps pointers to the
 * values, which the NULs then terminate.
 */
module EdgeArgs {
  import opened Base
  import opened CText
  import opened Ip

  /** The fields of one argument, split at `c` (at least one, possibly empty). */
  function Split(s: string, c: char): (r: seq<string>)
    ensures |r| >= 1
    decreases |s|
  {
    match Find(s, c)
    case None => [s]
    case Some(k) => [s[..k]] + Split(s[k + 1..], c)
  }

  /** No field holds the separator. */
  lemma {:induction false} SplitFields(s: string, c: char)
    ensures forall i | 0 <= i < |Split(s, c)| :: c !in Split(s, c)[i]
    decreases |s|
  {
    var f := Find(s, c);
    FindFirstOccurrence(s, c);
    if f.Some? {
      var k := f.value;
      SplitFields(s[k + 1..], c);
      assert Split(s, c) == [s[..k]] + Split(s[k + 1..], c);
    }
  }

  /** Fields put back together with `c` between them. */
  function Join(parts: seq<string>, c: char): string
    requires |parts| >= 1
  {
    if |parts| == 1 then parts[0] else parts[0] + [c] + Join(parts[1..], c)
  }

  /** Joining one more field in front. */
  lemma JoinFront(head: string, tail: seq<string>, c: char)
    requires |tail| >= 1
    ensures Join([head] + tail, c) == head + [c] + Join(tail, c)
  {
    assert ([head] + tail)[1..] == tail;
  }

  /** Splitting in front of the first separator. */
  lemma SplitFront(head: string, rest: string, c: char)
    requires c !in head
    ensures Split(head + [c] + rest, c) == [head] + Split(rest, c)
  {
    var s := head + [c] + rest;
    FindAfter(head, [c] + rest, c);
    assert head + ([c] + rest) == s;
    assert s[..|head|] == head;
    assert s[|head| + 1..] == rest;
  }

  /** Splitting loses nothing: joining the fields gives the argument back. */
  lemma {:induction false} JoinSplit(s: string, c: char)
    ensures Join(Split(s, c), c) == s
    decreases |s|
  {
    match Find(s, c)
    case None =>
      assert Split(s, c) == [s];
    case Some(k) =>
      var head, rest := s[..k], s[k + 1..];
      assert Split(s, c) == [head] + Split(rest, c);
      JoinSplit(rest, c);
      JoinFront(head, Split(rest, c), c);
      assert s == head + [c] + rest;
  }

  /** Joining fields that hold no `c` and splitting again gives the fields back. */
  lemma {:induction false} SplitJoin(parts: seq<string>, c: char)
    requires |parts| >= 1
    requires forall i | 0 <= i < |parts| :: c !in parts[i]
    ensures Split(Join(parts, c), c) == parts
    decreases |parts|
  {
    if |parts| > 1 {
      SplitJoin(parts[1..], c);
      SplitFront(parts[0], Join(parts[1..], c), c);
      assert parts == [parts[0]] + parts[1..];
    } else {
      assert Find(parts[0], c).None?;
    }
  }

  /** The option keys. */
  datatype Key = Iface | MacKey | VSubnet

  /**
   * The key an option name selects: the first keyword, in the order iface,
   * mac, vsubnet, of which the name is a prefix.
   */
  function KeyOf(name: string): Option<Key>
  {
    if PrefixOf(name, "iface") then Some(Iface)
    else if PrefixOf(name, "mac") then Some(MacKey)
    else if PrefixOf(name, "vsubnet") then Some(VSubnet)
    else None
  }

  /** A name holding a ',' is a prefix of no keyword without one. */
  lemma CommaNotPrefix(name: string, at: nat, keyword: string)
    requires at < |name| && name[at] == ',' && ',' !in keyword
    ensures !PrefixOf(name, keyword)
  {
  }

  /** A name holding a ',' selects no key. */
  lemma CommaSelectsNothing(name: string, at: nat)
    requires at < |name| && name[at] == ','
    ensures KeyOf(name).None?
  {
    CommaNotPrefix(name, at, "iface");
    CommaNotPrefix(name, at, "mac");
    CommaNotPrefix(name, at, "vsubnet");
  }

  /** The text of an argument: address and option values, each present or not. */
  datatype EdgeFields = EdgeFields(ip: string, intf: Option<string>, mac: Option<string>, vsubnet: Option<string>)

  /** Setting the option `key` to `value`. */
  function Put(acc: EdgeFields, key: Key, value: string): EdgeFields {
    match key
    case Iface => acc.(intf := Some(value))
    case MacKey => acc.(mac := Some(value))
    case VSubnet => acc.(vsubnet := Some(value))
  }

  /** Setting one option; a name that selects nothing is an error. */
  function Update(acc: EdgeFields, key: Option<Key>, value: string): Option<EdgeFields> {
    match key
    case None => None
    case Some(k) => Some(Put(acc, k, value))
  }

  /** One option field: `name=value`, split at its first '=', with a nonempty name. */
  function ApplyField(acc: EdgeFields, field: string): Option<EdgeFields> {
    match Find(field, '=')
    case None => None
    case Some(e) => if e == 0 then None else Update(acc, KeyOf(field[..e]), field[e + 1..])
  }

  /** The option fields in order. */
  function ApplyFields(acc: EdgeFields, fields: seq<string>): Option<EdgeFields>
    decreases |fields|
  {
    if fields == [] then Some(acc)
    else match ApplyField(acc, fields[0])
      case None => None
      case Some(next) => ApplyFields(next, fields[1..])
  }

  /**
   * The meaning of an `--edge-node` argument: the first comma-separated field
   * is the address, every later field an option; None stands for EINVAL.
   */
  function EdgeArg(s: string): Option<EdgeFields> {
    var fields := Split(s, ',');
    ApplyFields(EdgeFields(fields[0], None, None, None), fields[1..])
  }

  /** A field that is a well-formed option. */
  predicate ValidField(field: string) {
    match Find(field, '=')
    case None => false
    case Some(e) => e > 0 && KeyOf(field[..e]).Some?
  }

  /**
   * The options are rejected exactly when one field has no '=', an empty
   * name, or a name that selects no key.
   */
  lemma {:induction false} ApplyFieldsFails(acc: EdgeFields, fields: seq<string>)
    ensures ApplyFields(acc, fields).None? <==> exists i | 0 <= i < |fields| :: !ValidField(fields[i])
    decreases |fields|
  {
    if fields != [] {
      if ValidField(fields[0]) {
        var next := ApplyField(acc, fields[0]).value;
        ApplyFieldsFails(next, fields[1..]);
        if exists i | 0 <= i < |fields[1..]| :: !ValidField(fields[1..][i]) {
          var i :| 0 <= i < |fields[1..]| && !ValidField(fields[1..][i]);
          assert !ValidField(fields[i + 1]);
        }
        if exists i | 0 <= i < |fields| :: !ValidField(fields[i]) {
          var i :| 0 <= i < |fields| && !ValidField(fields[i]);
          assert !ValidField(fields[1..][i - 1]);
        }
      } else {
        assert !ValidField(fields[0]);
      }
    }
  }

  /** The value the last field that selects `key` gives it, if any. */
  function LastValue(fields: seq<string>, key: Key): Option<string>
    decreases |fields|
  {
    if fields == [] then None
    else
      var f := fields[|fields| - 1];
      match Find(f, '=')
      case Some(e) =>
        if e > 0 && KeyOf(f[..e]) == Some(key) then Some(f[e + 1..]) else LastValue(fields[..|fields| - 1], key)
      case None => LastValue(fields[..|fields| - 1], key)
  }

  function Get(f: EdgeFields, key: Key): Option<string> {
    match key
    case Iface => f.intf
    case MacKey => f.mac
    case VSubnet => f.vsubnet
  }

  /**
   * A repeated option overwrites the earlier one: on success each key holds
   * the value of its last field, and the address is never changed.
   */
  lemma {:induction false} ApplyFieldsLastWins(acc: EdgeFields, fields: seq<string>, key: Key)
    requires ApplyFields(acc, fields).Some?
    ensures ApplyFields(acc, fields).value.ip == acc.ip
    ensures Get(ApplyFields(acc, fields).value, key) == if LastValue(fields, key).Some? then LastValue(fields, key) else Get(acc, key)
    decreases |fields|
  {
    if fields != [] {
      var n := |fields| - 1;
      var front := ApplyFieldsPrefix(acc, fields);
      ApplyFieldsLastWins(acc, fields[..n], key);
    }
  }

  /** Options applied up to the last field, then the last field. */
  lemma {:induction false} ApplyFieldsPrefix(acc: EdgeFields, fields: seq<string>) returns (front: EdgeFields)
    requires fields != [] && ApplyFields(acc, fields).Some?
    ensures ApplyFields(acc, fields[..|fields| - 1]) == Some(front)
    ensures ApplyField(front, fields[|fields| - 1]) == ApplyFields(acc, fields)
    decreases |fields|
  {
    var next := ApplyField(acc, fields[0]).value;
    if |fields| == 1 {
      front := acc;
      assert fields[..0] == [];
    } else {
      front := ApplyFieldsPrefix(next, fields[1..]);
      assert fields[1..][..|fields| - 2] == fields[..|fields| - 1][1..];
      assert fields[1..][|fields| - 2] == fields[|fields| - 1];
    }
  }

  // ---------------------------------------------------------------------
  // Offsets into the argument

  /** The offset of the first `x` at or after `from`. */
  function FindFrom(s: string, from: nat, x: char): (r: Option<nat>)
    requires from <= |s|
    ensures r.Some? ==> from <= r.value < |s| && s[r.value] == x
    decreases |s| - from
  {
    if from == |s| then None
    else if s[from] == x then Some(from)
    else FindFrom(s, from + 1, x)
  }

  /** Nothing before the offset FindFrom returns is an `x`, and None means there is no `x` at all. */
  lemma {:induction false} FindFromFirst(s: string, from: nat, x: char)
    requires from <= |s|
    ensures FindFrom(s, from, x).Some? ==> forall i | from <= i < FindFrom(s, from, x).value :: s[i] != x
    ensures FindFrom(s, from, x).None? ==> forall i | from <= i < |s| :: s[i] != x
    decreases |s| - from
  {
    if from < |s| && s[from] != x {
      FindFromFirst(s, from + 1, x);
    }
  }

  /** An `x` at k with none between `from` and k is what FindFrom returns. */
  lemma {:induction false} FindFromAt(s: string, from: nat, x: char, k: nat)
    requires from <= k < |s| && s[k] == x
    requires forall i | from <= i < k :: s[i] != x
    ensures FindFrom(s, from, x) == Some(k)
    decreases k - from
  {
    if from < k {
      FindFromAt(s, from + 1, x, k);
    }
  }

  /** With no `x` between `from` and |s|, FindFrom returns None. */
  lemma {:induction false} FindFromNone(s: string, from: nat, x: char)
    requires from <= |s| && forall i | from <= i < |s| :: s[i] != x
    ensures FindFrom(s, from, x).None?
    decreases |s| - from
  {
    if from < |s| {
      FindFromNone(s, from + 1, x);
    }
  }

  /** Strings that agree from `from` on have the same first `x` from there. */
  lemma {:induction false} FindFromAgree(a: string, s: string, from: nat, x: char)
    requires from <= |a| == |s| && forall i | from <= i < |s| :: a[i] == s[i]
    ensures FindFrom(a, from, x) == FindFrom(s, from, x)
    decreases |s| - from
  {
    if from < |s| {
      FindFromAgree(a, s, from + 1, x);
    }
  }

  /** FindFrom is `strchr` on the rest of the string from `from`, counted from the start. */
  lemma FindFromRest(s: string, from: nat, x: char)
    requires from <= |s|
    ensures Find(s[from..], x).None? ==> FindFrom(s, from, x).None?
    ensures Find(s[from..], x).Some? ==> FindFrom(s, from, x) == Some(from + Find(s[from..], x).value)
  {
    FindFirstOccurrence(s[from..], x);
    match Find(s[from..], x)
    case None =>
      forall i | from <= i < |s|
        ensures s[i] != x
      {
        assert s[from..][i - from] == s[i];
      }
      FindFromNone(s, from, x);
    case Some(k) =>
      forall i | from <= i < from + k
        ensures s[i] != x
      {
        assert s[from..][..k][i - from] == s[i];
      }
      FindFromAt(s, from, x, from + k);
  }

  /** Where the field that starts at offset p ends: at the next ',' or at the end. */
  function FieldEnd(s: string, p: nat): (e: nat)
    requires p <= |s|
    ensures p <= e <= |s|
  {
    match FindFrom(s, p, ',')
    case None => |s|
    case Some(c) => c
  }

  /** The text of the field that starts at offset p. */
  function FieldAt(s: string, p: nat): string
    requires p <= |s|
  {
    s[p..FieldEnd(s, p)]
  }

  /** A field holds no ',', and a ',' ends it unless the argument does. */
  lemma FieldBounds(s: string, p: nat)
    requires p <= |s|
    ensures forall i | p <= i < FieldEnd(s, p) :: s[i] != ','
    ensures FieldEnd(s, p) < |s| ==> s[FieldEnd(s, p)] == ','
  {
    FindFromFirst(s, p, ',');
  }

  /** A field that starts inside another ends where that one does. */
  lemma FieldEndInside(s: string, p: nat, q: nat)
    requires p <= |s| && p <= q <= FieldEnd(s, p)
    ensures FieldEnd(s, q) == FieldEnd(s, p)
  {
    FieldBounds(s, p);
    if FieldEnd(s, p) < |s| {
      FindFromAt(s, q, ',', FieldEnd(s, p));
    } else {
      FindFromNone(s, q, ',');
    }
  }

  /** Where the C string at offset p of a character array ends: at the first NUL or at the end. */
  function CEnd(a: seq<char>, p: nat): (e: nat)
    requires p <= |a|
    ensures p <= e <= |a|
  {
    match FindFrom(a, p, '\0')
    case None => |a|
    case Some(z) => z
  }

  /** The C string at offset p of a character array. */
  function CStr(a: seq<char>, p: nat): string
    requires p <= |a|
  {
    a[p..CEnd(a, p)]
  }

  /** strchr(a + from, c) for a character c other than NUL: the first `c` of the C string at `from`. */
  function StrChr(a: seq<char>, from: nat, c: char): (r: Option<nat>)
    requires from <= |a|
    ensures r.Some? ==> from <= r.value < |a| && a[r.value] == c
  {
    match FindFrom(a, from, c)
    case None => None
    case Some(k) => if k < CEnd(a, from) then Some(k) else None
  }

  // ---------------------------------------------------------------------
  // The fields the splitter leaves behind

  /** What the splitter makes of one character of the argument: a ',' becomes a NUL. */
  function NulOf(ch: char): char {
    if ch == ',' then '\0' else ch
  }

  /** `a` is the argument `s` with every ',' overwritten by a NUL. */
  ghost predicate AllCut(a: seq<char>, s: string) {
    |a| == |s| && forall i | 0 <= i < |s| :: a[i] == NulOf(s[i])
  }

  /** The splitter writes only NULs into the argument. */
  ghost predicate OnlyNuls(a: seq<char>, s: string) {
    |a| == |s| && forall i | 0 <= i < |s| :: a[i] == s[i] || a[i] == '\0'
  }

  /** Where the splitter left the values: offsets into the argument (the address is at offset 0). */
  datatype EdgePointers = EdgePointers(intf: Option<nat>, mac: Option<nat>, vsubnet: Option<nat>)

  function Deref(s: string, p: Option<nat>): Option<string> {
    if p.Some? && p.value <= |s| then Some(FieldAt(s, p.value)) else None
  }

  /** The fields the pointers designate in the original argument. */
  function Designated(s: string, ptrs: EdgePointers): EdgeFields {
    EdgeFields(FieldAt(s, 0), Deref(s, ptrs.intf), Deref(s, ptrs.mac), Deref(s, ptrs.vsubnet))
  }

  function CDeref(a: seq<char>, p: Option<nat>): Option<string> {
    if p.Some? && p.value <= |a| then Some(CStr(a, p.value)) else None
  }

  /** The strings the pointers read in the array the splitter leaves. */
  function Fetch(a: seq<char>, ptrs: EdgePointers): EdgeFields {
    EdgeFields(CStr(a, 0), CDeref(a, ptrs.intf), CDeref(a, ptrs.mac), CDeref(a, ptrs.vsubnet))
  }

  /** In the split argument, the C string at any offset is the field there. */
  lemma CStrCut(a: seq<char>, s: string, p: nat)
    requires '\0' !in s && p <= |s| && AllCut(a, s)
    ensures CStr(a, p) == FieldAt(s, p)
  {
    FieldBounds(s, p);
    var e := FieldEnd(s, p);
    if e < |s| {
      FindFromAt(a, p, '\0', e);
    } else {
      FindFromNone(a, p, '\0');
    }
    assert CEnd(a, p) == e;
  }

  /** Once every ',' is a NUL, the pointers read the fields they designate. */
  lemma FetchDesignated(a: seq<char>, s: string, ptrs: EdgePointers)
    requires '\0' !in s && AllCut(a, s)
    ensures Fetch(a, ptrs) == Designated(s, ptrs)
  {
    CStrCut(a, s, 0);
    if ptrs.intf.Some? && ptrs.intf.value <= |s| {
      CStrCut(a, s, ptrs.intf.value);
    }
    if ptrs.mac.Some? && ptrs.mac.value <= |s| {
      CStrCut(a, s, ptrs.mac.value);
    }
    if ptrs.vsubnet.Some? && ptrs.vsubnet.value <= |s| {
      CStrCut(a, s, ptrs.vsubnet.value);
    }
  }

  // ---------------------------------------------------------------------
  // The splitter, in pointers

  /** The pointers with the one for `key` moved to offset p. */
  function SetPointer(ptrs: EdgePointers, key: Key, p: nat): EdgePointers {
    match key
    case Iface => ptrs.(intf := Some(p))
    case MacKey => ptrs.(mac := Some(p))
    case VSubnet => ptrs.(vsubnet := Some(p))
  }

  /** What one round of the splitter's loop comes to: its answer, or the next field and the pointers so far. */
  datatype Round = Stop(answer: Option<EdgePointers>) | Next(start: nat, ptrs: EdgePointers)

  /**
   * One round of the splitter's scan from the field at `sep`, on the
   * original argument and in pointers: find the next ','; with none left,
   * answer the pointers.  Otherwise take the option after it up to the next
   * '=' (the search runs on through later fields, as the splitter's does);
   * with a nonempty name that selects a key, move that key's pointer just
   * past the '=' and go on from the option, and answer None otherwise.
   */
  function ScanRound(s: string, sep: nat, ptrs: EdgePointers): (r: Round)
    requires sep <= |s|
    ensures r.Next? ==> sep < r.start <= |s|
  {
    match FindFrom(s, sep, ',')
    case None => Stop(Some(ptrs))
    case Some(c) =>
      match FindFrom(s, c + 1, '=')
      case None => Stop(None)
      case Some(eq) =>
        if eq == c + 1 then Stop(None)
        else
          match KeyOf(s[c + 1..eq])
          case None => Stop(None)
          case Some(key) => Next(c + 1, SetPointer(ptrs, key, eq + 1))
  }

  /** The splitter's scan from the field at `sep` to its answer. */
  function ScanFrom(s: string, sep: nat, ptrs: EdgePointers): Option<EdgePointers>
    requires sep <= |s|
    decreases |s| - sep
  {
    match ScanRound(s, sep, ptrs)
    case Stop(answer) => answer
    case Next(start, ptrs') => ScanFrom(s, start, ptrs')
  }

  /** The pointers the splitter ends with, if it accepts the argument. */
  function SplitPointers(s: string): Option<EdgePointers> {
    ScanFrom(s, 0, EdgePointers(None, None, None))
  }

  // ---------------------------------------------------------------------
  // The splitter, in place

  /** The splitter's array after it has cut up to `sep`: the commas before `sep` are NULs, the rest is the original. */
  ghost predicate CutUpTo(a: seq<char>, s: string, sep: nat) {
    && |a| == |s| && sep <= |s|
    && (forall i | 0 <= i < sep :: a[i] == NulOf(s[i]))
    && (forall i | sep <= i < |s| :: a[i] == s[i])
  }

  /** Cutting the first ',' after `sep` extends the cut past it. */
  lemma CutNext(a: seq<char>, s: string, sep: nat, c: nat)
    requires CutUpTo(a, s, sep) && FindFrom(s, sep, ',') == Some(c)
    ensures CutUpTo(a[c := '\0'], s, c + 1)
  {
    FindFromFirst(s, sep, ',');
  }

  /** With no ',' after `sep`, every ',' has been cut. */
  lemma CutEnd(a: seq<char>, s: string, sep: nat)
    requires CutUpTo(a, s, sep) && FindFrom(s, sep, ',').None?
    ensures AllCut(a, s) && OnlyNuls(a, s)
  {
    FindFromFirst(s, sep, ',');
  }

  /** A partly cut array differs from the original only by NULs. */
  lemma CutNuls(a: seq<char>, s: string, sep: nat)
    requires CutUpTo(a, s, sep)
    ensures OnlyNuls(a, s)
  {
  }

  /** So does a partly cut array with one more NUL in it. */
  lemma CutOneMore(a: seq<char>, s: string, sep: nat, j: nat)
    requires CutUpTo(a, s, sep) && j < |a|
    ensures OnlyNuls(a[j := '\0'], s)
  {
  }

  /**
   * Ahead of `sep` the array is the original argument, so strchr from
   * `sep` finds what FindFrom finds in the original, and the text from
   * `sep` to any j is the original's.
   */
  lemma SearchAhead(a: seq<char>, s: string, sep: nat, x: char, j: nat)
    requires '\0' !in s && x != '\0' && sep <= j <= |s| && CutUpTo(a, s, sep)
    ensures StrChr(a, sep, x) == FindFrom(s, sep, x)
    ensures a[sep..j] == s[sep..j]
  {
    FindFromNone(a, sep, '\0');
    FindFromAgree(a, s, sep, x);
    assert a[sep..j] == s[sep..j];
  }

  /**
   * The splitter of parseArg's `--edge-node` case.  The argument (a C string
   * without its terminator) is cut in place: every ',' up to where the scan
   * stops becomes a NUL, and on an unknown option name the '=' after it
   * too.  None stands for EINVAL.
   */
  method SplitEdgeArg(arg: array<char>) returns (r: Option<EdgePointers>)
    requires '\0' !in arg[..]
    modifies arg
    ensures r == SplitPointers(old(arg[..]))
    ensures r.Some? ==> AllCut(arg[..], old(arg[..]))
    ensures OnlyNuls(arg[..], old(arg[..]))
  {
    ghost var s := arg[..];
    var ptrs := EdgePointers(None, None, None);
    var optionSep := 0;
    while true
      invariant CutUpTo(arg[..], s, optionSep)
      invariant ScanFrom(s, optionSep, ptrs) == SplitPointers(s)
      decreases |s| - optionSep
    {
      var round := SplitRound(arg, s, optionSep, ptrs);
      match round
      case Stop(answer) =>
        return answer;
      case Next(start, ptrs') =>
        optionSep, ptrs := start, ptrs';
    }
  }

  /** One round of the splitter's loop, from the field at `sep`. */
  method SplitRound(arg: array<char>, ghost s: string, sep: nat, ptrs: EdgePointers) returns (round: Round)
    requires '\0' !in s && CutUpTo(arg[..], s, sep)
    modifies arg
    ensures round == ScanRound(s, sep, ptrs)
    ensures round.Stop? ==> OnlyNuls(arg[..], s)
    ensures round.Stop? && round.answer.Some? ==> AllCut(arg[..], s)
    ensures round.Next? ==> CutUpTo(arg[..], s, round.start)
  {
    var comma := CutField(arg, s, sep);
    if comma.None? {
      return Stop(Some(ptrs));
    }
    var optionSep := comma.value + 1;
    var keyValSep, key := OptionKey(arg, s, optionSep);
    if key.None? {
      return Stop(None);
    }
    return Next(optionSep, SetPointer(ptrs, key.value, keyValSep.value + 1));
  }

  /**
   * The first half of one round of the splitter: find the ',' that ends the
   * field at `sep` and overwrite it with a NUL.
   */
  method CutField(arg: array<char>, ghost s: string, sep: nat) returns (comma: Option<nat>)
    requires '\0' !in s && CutUpTo(arg[..], s, sep)
    modifies arg
    ensures comma == FindFrom(s, sep, ',')
    ensures comma.None? ==> AllCut(arg[..], s) && OnlyNuls(arg[..], s)
    ensures comma.Some? ==> CutUpTo(arg[..], s, comma.value + 1)
  {
    SearchAhead(arg[..], s, sep, ',', sep);
    comma := StrChr(arg[..], sep, ',');
    if comma.None? {
      CutEnd(arg[..], s, sep);
      return;
    }
    CutNext(arg[..], s, sep, comma.value);
    arg[comma.value] := '\0';
  }

  /**
   * The second half: the option starting at `start` up to its '=', and the
   * key its name selects.  On an unknown name the '=' is overwritten with a
   * NUL, so that the message can show the name alone.
   */
  method OptionKey(arg: array<char>, ghost s: string, start: nat) returns (eq: Option<nat>, key: Option<Key>)
    requires '\0' !in s && CutUpTo(arg[..], s, start)
    modifies arg
    ensures eq == FindFrom(s, start, '=')
    ensures key.Some? ==> eq.Some? && eq.value != start && KeyOf(s[start..eq.value]) == key
    ensures key.Some? ==> unchanged(arg)
    ensures key.None? ==> eq.None? || eq.value == start || KeyOf(s[start..eq.value]).None?
    ensures key.None? ==> OnlyNuls(arg[..], s)
  {
    SearchAhead(arg[..], s, start, '=', start);
    eq := StrChr(arg[..], start, '=');
    if eq.None? {
      CutNuls(arg[..], s, start);
      return eq, None;
    }
    SearchAhead(arg[..], s, start, '=', eq.value);
    var cmpLen := eq.value - start;
    if cmpLen == 0 {
      CutNuls(arg[..], s, start);
      return eq, None;
    }
    var name := arg[start..eq.value];
    key := KeyOf(name);
    if key.None? {
      CutOneMore(arg[..], s, start, eq.value);
      arg[eq.value] := '\0';
    }
  }

  // ---------------------------------------------------------------------
  // What the pointers mean

  /**
   * One option read on offsets: the option starting at `start` up to the
   * next '=' (found, as the splitter finds it, possibly in a later field),
   * with a nonempty name, sets the key that name selects to the field after
   * the '='.
   */
  function OptionAt(acc: EdgeFields, s: string, start: nat): Option<EdgeFields>
    requires start <= |s|
  {
    match FindFrom(s, start, '=')
    case None => None
    case Some(eq) => if eq == start then None else Update(acc, KeyOf(s[start..eq]), FieldAt(s, eq + 1))
  }

  /**
   * The field semantics read on offsets: the options after the field at
   * `sep`, each starting after a ',', applied in order to `acc`.
   */
  function FieldsFrom(acc: EdgeFields, s: string, sep: nat): Option<EdgeFields>
    requires sep <= |s|
    decreases |s| - sep
  {
    match FindFrom(s, sep, ',')
    case None => Some(acc)
    case Some(c) =>
      match OptionAt(acc, s, c + 1)
      case None => None
      case Some(next) => FieldsFrom(next, s, c + 1)
  }

  /** The first of the fields split from offset p is the field at p. */
  lemma SplitHead(s: string, p: nat)
    requires p <= |s|
    ensures Split(s[p..], ',')[0] == FieldAt(s, p)
  {
    FindFromRest(s, p, ',');
    match Find(s[p..], ',')
    case None =>
    case Some(k) =>
      assert s[p..][..k] == s[p..p + k];
  }

  /**
   * The comma at `c` ends the field that starts at `sep`: the options after
   * it are the field starting at c + 1 followed by the options after that
   * field.
   */
  lemma NextField(s: string, sep: nat, c: nat)
    requires sep <= |s| && FindFrom(s, sep, ',') == Some(c)
    ensures Split(s[sep..], ',')[1..] == [FieldAt(s, c + 1)] + Split(s[c + 1..], ',')[1..]
  {
    var t := s[sep..];
    FindFromRest(s, sep, ',');
    assert Find(t, ',') == Some(c - sep);
    assert t[c - sep + 1..] == s[c + 1..];
    assert Split(t, ',')[1..] == Split(s[c + 1..], ',');
    SplitHead(s, c + 1);
  }

  /** When no ',' follows, the field at `sep` is the last one. */
  lemma LastField(s: string, sep: nat)
    requires sep <= |s| && FindFrom(s, sep, ',').None?
    ensures Split(s[sep..], ',')[1..] == []
  {
    FindFromRest(s, sep, ',');
  }

  /** Options in front of others: a rejected first option rejects them all, an accepted one hands on its result. */
  lemma ApplyFirst(acc: EdgeFields, field: string, rest: seq<string>)
    ensures ApplyField(acc, field).None? ==> ApplyFields(acc, [field] + rest).None?
    ensures ApplyField(acc, field).Some? ==> ApplyFields(acc, [field] + rest) == ApplyFields(ApplyField(acc, field).value, rest)
  {
    assert ([field] + rest)[1..] == rest;
  }

  /** When the '=' search from `sep` finds nothing, the field at `sep` is rejected. */
  lemma FieldWithoutEquals(s: string, sep: nat, acc: EdgeFields)
    requires sep <= |s| && FindFrom(s, sep, '=').None?
    ensures ApplyField(acc, FieldAt(s, sep)).None?
  {
    FindFromFirst(s, sep, '=');
    var field := FieldAt(s, sep);
    FindFirstOccurrence(field, '=');
    assert forall i | 0 <= i < |field| :: field[i] == s[sep + i];
  }

  /**
   * When the '=' search from `sep` finds one at `eq`, the field at `sep` is
   * rejected for eq = sep, and otherwise sets the key the characters before
   * `eq` select to the text after the '='.  Within the field, the '=' is the
   * field's own; beyond it, the characters before `eq` hold the ',' that
   * ends the field and select nothing, just as the field, which then has no
   * '=', is rejected.
   */
  lemma FieldWithEquals(s: string, sep: nat, eq: nat, acc: EdgeFields)
    requires sep <= |s| && FindFrom(s, sep, '=') == Some(eq)
    ensures eq == sep ==> ApplyField(acc, FieldAt(s, sep)).None?
    ensures eq > sep ==> ApplyField(acc, FieldAt(s, sep)) == Update(acc, KeyOf(s[sep..eq]), FieldAt(s, eq + 1))
  {
    FindFromFirst(s, sep, '=');
    FieldBounds(s, sep);
    var e := FieldEnd(s, sep);
    var field := FieldAt(s, sep);
    if eq < e {
      var k := eq - sep;
      assert field[k] == '=';
      assert field[..k] == s[sep..eq];
      FindFirst(field, '=', k);
      FieldEndInside(s, sep, eq + 1);
      assert field[k + 1..] == FieldAt(s, eq + 1);
    } else {
      FindFirstOccurrence(field, '=');
      assert forall i | 0 <= i < |field| :: field[i] == s[sep + i];
      assert e < eq && s[e] == ',';
      assert s[sep..eq][e - sep] == ',';
      CommaSelectsNothing(s[sep..eq], e - sep);
    }
  }

  /** Read on offsets or as the field it starts, an option means the same. */
  lemma OptionAtField(acc: EdgeFields, s: string, start: nat)
    requires start <= |s|
    ensures OptionAt(acc, s, start) == ApplyField(acc, FieldAt(s, start))
  {
    match FindFrom(s, start, '=')
    case None =>
      FieldWithoutEquals(s, start, acc);
    case Some(eq) =>
      FieldWithEquals(s, start, eq, acc);
  }

  /** Moving a pointer to p makes its key designate the field at p. */
  lemma DesignatedSet(s: string, ptrs: EdgePointers, key: Key, p: nat)
    requires p <= |s|
    ensures Put(Designated(s, ptrs), key, FieldAt(s, p)) == Designated(s, SetPointer(ptrs, key, p))
  {
  }

  /** The step of FieldsFrom over the option after the ',' at c, in front of options `rest` it agrees with. */
  lemma FieldsFromStep(acc: EdgeFields, s: string, sep: nat, c: nat, rest: seq<string>)
    requires sep <= |s| && FindFrom(s, sep, ',') == Some(c)
    requires OptionAt(acc, s, c + 1).Some? ==>
               FieldsFrom(OptionAt(acc, s, c + 1).value, s, c + 1) == ApplyFields(OptionAt(acc, s, c + 1).value, rest)
    ensures FieldsFrom(acc, s, sep) == ApplyFields(acc, [FieldAt(s, c + 1)] + rest)
  {
    OptionAtField(acc, s, c + 1);
    ApplyFirst(acc, FieldAt(s, c + 1), rest);
  }

  /** On offsets, the options after the field at `sep` are the fields split from `sep` but the first. */
  lemma {:induction false} FieldsFromSplit(acc: EdgeFields, s: string, sep: nat)
    requires sep <= |s|
    ensures FieldsFrom(acc, s, sep) == ApplyFields(acc, Split(s[sep..], ',')[1..])
    decreases |s| - sep
  {
    match FindFrom(s, sep, ',')
    case None =>
      LastField(s, sep);
    case Some(c) =>
      var rest := Split(s[c + 1..], ',')[1..];
      var next := OptionAt(acc, s, c + 1);
      if next.Some? {
        FieldsFromSplit(next.value, s, c + 1);
      }
      FieldsFromStep(acc, s, sep, c, rest);
      NextField(s, sep, c);
  }

  /** The meaning of an argument is its address field with the options after it applied. */
  lemma EdgeArgFrom(s: string)
    ensures EdgeArg(s) == FieldsFrom(EdgeFields(FieldAt(s, 0), None, None, None), s, 0)
  {
    assert s[0..] == s;
    SplitHead(s, 0);
    FieldsFromSplit(EdgeFields(FieldAt(s, 0), None, None, None), s, 0);
  }

  /** The pointers `r` the scan gives agree with the meaning: both reject, or the pointers designate the meaning. */
  ghost predicate Agrees(meaning: Option<EdgeFields>, s: string, r: Option<EdgePointers>) {
    && (r.None? <==> meaning.None?)
    && (r.Some? ==> meaning == Some(Designated(s, r.value)))
  }

  /** The round from `sep` when no ',' is left: the scan answers its pointers, the semantics its fields. */
  lemma RoundAtEnd(s: string, sep: nat, ptrs: EdgePointers, acc: EdgeFields)
    requires sep <= |s| && FindFrom(s, sep, ',').None?
    ensures ScanRound(s, sep, ptrs) == Stop(Some(ptrs))
    ensures FieldsFrom(acc, s, sep) == Some(acc)
  {
  }

  /**
   * The round from `sep` over an option without a '=', with an empty name,
   * or with a name that selects no key: the scan and the semantics both
   * reject.
   */
  lemma RoundRejects(s: string, sep: nat, c: nat, eq: Option<nat>, ptrs: EdgePointers, acc: EdgeFields)
    requires sep <= |s| && FindFrom(s, sep, ',') == Some(c) && FindFrom(s, c + 1, '=') == eq
    requires eq.None? || eq.value == c + 1 || KeyOf(s[c + 1..eq.value]).None?
    ensures ScanRound(s, sep, ptrs) == Stop(None)
    ensures FieldsFrom(acc, s, sep).None?
  {
  }

  /**
   * The round from `sep` over an option whose name selects `key`: the scan
   * moves that key's pointer past the '=', the semantics puts the field
   * there under the key, and both go on from the option.
   */
  lemma RoundAccepts(s: string, sep: nat, c: nat, eq: nat, ptrs: EdgePointers, acc: EdgeFields, key: Key)
    requires sep <= |s| && FindFrom(s, sep, ',') == Some(c) && FindFrom(s, c + 1, '=') == Some(eq)
    requires eq != c + 1 && KeyOf(s[c + 1..eq]) == Some(key)
    ensures ScanRound(s, sep, ptrs) == Next(c + 1, SetPointer(ptrs, key, eq + 1))
    ensures FieldsFrom(acc, s, sep) == FieldsFrom(Put(acc, key, FieldAt(s, eq + 1)), s, c + 1)
  {
  }

  /**
   * One round of the scan against the field semantics on fields `acc`: a
   * round that stops answers None exactly when the semantics rejects, and
   * otherwise with the pointers it was given, while the semantics gives
   * `acc`; a round that goes on moves the pointer of one key to p, and the
   * semantics goes on from the next option with the field at p under that
   * key.
   */
  lemma RoundMeaning(s: string, sep: nat, ptrs: EdgePointers, acc: EdgeFields) returns (r: Round, key: Key, p: nat)
    requires sep <= |s|
    ensures r == ScanRound(s, sep, ptrs)
    ensures r.Stop? ==> (r.answer.None? <==> FieldsFrom(acc, s, sep).None?)
    ensures r.Stop? && r.answer.Some? ==> r.answer.value == ptrs && FieldsFrom(acc, s, sep) == Some(acc)
    ensures r.Next? ==> p <= |s| && r.ptrs == SetPointer(ptrs, key, p)
    ensures r.Next? ==> FieldsFrom(acc, s, sep) == FieldsFrom(Put(acc, key, FieldAt(s, p)), s, r.start)
  {
    key, p := Iface, 0;
    match FindFrom(s, sep, ',')
    case None =>
      RoundAtEnd(s, sep, ptrs, acc);
      r := Stop(Some(ptrs));
    case Some(c) =>
      var eq := FindFrom(s, c + 1, '=');
      if eq.None? || eq.value == c + 1 || KeyOf(s[c + 1..eq.value]).None? {
        RoundRejects(s, sep, c, eq, ptrs, acc);
        r := Stop(None);
      } else {
        key, p := KeyOf(s[c + 1..eq.value]).value, eq.value + 1;
        RoundAccepts(s, sep, c, eq.value, ptrs, acc, key);
        r := Next(c + 1, SetPointer(ptrs, key, p));
      }
  }

  /** From any point of the scan on, the pointers agree with the field semantics on the fields they designate. */
  lemma {:induction false} ScanMeaning(s: string, sep: nat, ptrs: EdgePointers)
    requires sep <= |s|
    ensures Agrees(FieldsFrom(Designated(s, ptrs), s, sep), s, ScanFrom(s, sep, ptrs))
    decreases |s| - sep
  {
    var r, key, p := RoundMeaning(s, sep, ptrs, Designated(s, ptrs));
    if r.Next? {
      DesignatedSet(s, ptrs, key, p);
      ScanMeaning(s, r.start, r.ptrs);
    }
  }

  /**
   * The splitter accepts exactly the arguments `EdgeArg` accepts, and then
   * its pointers, read as C strings in the cut argument, give exactly the
   * fields of `EdgeArg`.
   */
  lemma SplitMeaning(s: string, a: seq<char>)
    requires '\0' !in s
    ensures SplitPointers(s).None? <==> EdgeArg(s).None?
    ensures SplitPointers(s).Some? && AllCut(a, s) ==> Fetch(a, SplitPointers(s).value) == EdgeArg(s).value
  {
    EdgeArgFrom(s);
    ScanMeaning(s, 0, EdgePointers(None, None, None));
    if SplitPointers(s).Some? && AllCut(a, s) {
      FetchDesignated(a, s, SplitPointers(s).value);
    }
  }
}
