/**
 * The line-oriented text of a WireGuard client configuration: section
 * headers and `Key = value` settings, one per line, each ended by a
 * newline. `Lookup` reads a setting back from the text, which is how the
 * properties of the rendered configuration are stated.
 */
module ConfigText {
  import opened Wrappers
  import opened Text

  /** The settings a client configuration can carry, in the order they are written. */
  datatype Key = Address | PrivateKey | DNS | MTU | FwMark | PublicKey | PresharedKey | AllowedIPs | Endpoint | PersistentKeepalive

  function KeyName(k: Key): string
  {
    match k
    case Address => "Address"
    case PrivateKey => "PrivateKey"
    case DNS => "DNS"
    case MTU => "MTU"
    case FwMark => "FwMark"
    case PublicKey => "PublicKey"
    case PresharedKey => "PresharedKey"
    case AllowedIPs => "AllowedIPs"
    case Endpoint => "Endpoint"
    case PersistentKeepalive => "PersistentKeepalive"
  }

  /** The position of a key in the written order. */
  function Rank(k: Key): nat
  {
    match k
    case Address => 0
    case PrivateKey => 1
    case DNS => 2
    case MTU => 3
    case FwMark => 4
    case PublicKey => 5
    case PresharedKey => 6
    case AllowedIPs => 7
    case Endpoint => 8
    case PersistentKeepalive => 9
  }

  /** One line of a configuration. */
  datatype Entry = Header(text: string) | Set(key: Key, value: string)

  function EntryLine(e: Entry): string
  {
    match e
    case Header(t) => t
    case Set(k, v) => KeyName(k) + " = " + v
  }

  function EntryLines(es: seq<Entry>): (ls: seq<string>)
    ensures |ls| == |es| && forall i :: 0 <= i < |es| ==> ls[i] == EntryLine(es[i])
  {
    if |es| == 0 then []
    else
      var rest := EntryLines(es[1..]);
      assert forall i :: 1 <= i < |es| ==> es[1..][i - 1] == es[i];
      [EntryLine(es[0])] + rest
  }

  /** The text: every line followed by a newline. */
  function Render(es: seq<Entry>): string
  {
    if |es| == 0 then "" else EntryLine(es[0]) + "\n" + Render(es[1..])
  }

  /** The value of the first setting of `k` among the entries. */
  function Setting(es: seq<Entry>, k: Key): Option<string>
  {
    if |es| == 0 then None
    else if es[0].Set? && es[0].key == k then Some(es[0].value)
    else Setting(es[1..], k)
  }

  /** The value of the first line of the text that starts with `KeyName(k) + " = "`. */
  function Lookup(text: string, k: Key): Option<string>
  {
    LookupLine(Split(text, '\n'), k)
  }

  function LookupLine(lines: seq<string>, k: Key): Option<string>
  {
    if |lines| == 0 then None
    else if HasPrefix(lines[0], KeyName(k) + " = ") then Some(lines[0][|KeyName(k)| + 3..])
    else LookupLine(lines[1..], k)
  }

  /** A header cannot be mistaken for a setting. */
  predicate PlainHeader(t: string)
  {
    t == "" || t[0] == '['
  }

  /** Entries that render to exactly one line each. */
  predicate OneLineEach(es: seq<Entry>)
  {
    forall i :: 0 <= i < |es| ==> '\n' !in EntryLine(es[i]) && (es[i].Header? ==> PlainHeader(es[i].text))
  }

  lemma KeyNameShape(k: Key)
    ensures |KeyName(k)| > 0 && ' ' !in KeyName(k) && '\n' !in KeyName(k) && 'A' <= KeyName(k)[0] <= 'Z'
  {
  }

  lemma KeyNameDistinct(a: Key, b: Key)
    requires a != b
    ensures KeyName(a) != KeyName(b)
  {
    if {a, b} == {PrivateKey, AllowedIPs} || {a, b} == {DNS, MTU} {
      assert KeyName(a)[0] != KeyName(b)[0];
    } else {
      assert |KeyName(a)| != |KeyName(b)|;
    }
  }

  lemma PrefixDiffers(line: string, p: string, i: nat)
    requires i < |p| && i < |line| && line[i] != p[i]
    ensures !HasPrefix(line, p)
  {
    if |p| <= |line| {
      assert line[..|p|][i] == line[i];
    }
  }

  /** A setting line starts with `KeyName(k) + " = "` exactly for its own key. */
  lemma SettingPrefix(a: Key, v: string, b: Key)
    ensures HasPrefix(KeyName(a) + " = " + v, KeyName(b) + " = ") <==> a == b
  {
    var na, nb := KeyName(a), KeyName(b);
    var line, p := na + " = " + v, nb + " = ";
    KeyNameShape(a);
    KeyNameShape(b);
    if a == b {
      assert line[..|p|] == p;
    } else if |nb| < |na| {
      assert line[|nb|] == na[|nb|] && p[|nb|] == ' ';
      PrefixDiffers(line, p, |nb|);
    } else if |nb| > |na| {
      assert line[|na|] == ' ' && p[|na|] == nb[|na|];
      PrefixDiffers(line, p, |na|);
    } else {
      KeyNameDistinct(a, b);
      var i :| 0 <= i < |na| && na[i] != nb[i];
      assert line[i] == na[i] && p[i] == nb[i];
      PrefixDiffers(line, p, i);
    }
  }

  lemma {:induction false} RenderLines(es: seq<Entry>)
    requires OneLineEach(es)
    ensures Split(Render(es), '\n') == EntryLines(es) + [""]
    decreases |es|
  {
    if |es| > 0 {
      RenderLines(es[1..]);
      SplitAfterField(EntryLine(es[0]), Render(es[1..]), '\n');
      assert [EntryLine(es[0])] + (EntryLines(es[1..]) + [""]) == EntryLines(es) + [""];
    } else {
      SplitNoSep("", '\n');
    }
  }

  lemma {:induction false} LookupLines(es: seq<Entry>, k: Key)
    requires OneLineEach(es)
    ensures LookupLine(EntryLines(es) + [""], k) == Setting(es, k)
    decreases |es|
  {
    var ls := EntryLines(es) + [""];
    if |es| == 0 {
      assert ls == [""];
      assert !HasPrefix("", KeyName(k) + " = ");
    } else {
      assert ls[0] == EntryLine(es[0]);
      assert ls[1..] == EntryLines(es[1..]) + [""];
      LookupLines(es[1..], k);
      match es[0]
      case Set(a, v) =>
        SettingPrefix(a, v, k);
        if a == k {
          assert ls[0][|KeyName(k)| + 3..] == v;
        }
      case Header(t) =>
        KeyNameShape(k);
        if t != "" { assert (KeyName(k) + " = ")[0] != t[0]; }
    }
  }

  /** Reading a setting back from the text finds the first entry for that key. */
  lemma RenderLookup(es: seq<Entry>, k: Key)
    requires OneLineEach(es)
    ensures Lookup(Render(es), k) == Setting(es, k)
  {
    RenderLines(es);
    LookupLines(es, k);
  }

  lemma {:induction false} SettingAppend(a: seq<Entry>, b: seq<Entry>, k: Key)
    ensures Setting(a + b, k) == if Setting(a, k).Some? then Setting(a, k) else Setting(b, k)
    decreases |a|
  {
    if |a| == 0 {
      assert a + b == b;
    } else {
      assert (a + b)[0] == a[0] && (a + b)[1..] == a[1..] + b;
      SettingAppend(a[1..], b, k);
    }
  }

  lemma {:induction false} RenderAppend(a: seq<Entry>, b: seq<Entry>)
    ensures Render(a + b) == Render(a) + Render(b)
    decreases |a|
  {
    if |a| == 0 {
      assert a + b == b;
    } else {
      assert (a + b)[0] == a[0] && (a + b)[1..] == a[1..] + b;
      RenderAppend(a[1..], b);
    }
  }

  // ---------------------------------------------------------------- settings from a table

  /** One setting per key of `keys` that `values` holds, in the order of `keys`. */
  function Lines(keys: seq<Key>, values: map<Key, string>): seq<Entry>
  {
    if |keys| == 0 then []
    else LineOf(keys[0], values) + Lines(keys[1..], values)
  }

  function LineOf(k: Key, values: map<Key, string>): seq<Entry>
  {
    if k in values then [Set(k, values[k])] else []
  }

  lemma RenderLinesStep(keys: seq<Key>, values: map<Key, string>)
    requires |keys| > 0
    ensures Render(Lines(keys, values)) == Render(LineOf(keys[0], values)) + Render(Lines(keys[1..], values))
  {
    RenderAppend(LineOf(keys[0], values), Lines(keys[1..], values));
  }

  /** The text of `LineOf`: `Key = value` and a newline, or nothing. */
  lemma LineOfText(k: Key, values: map<Key, string>)
    ensures Render(LineOf(k, values)) == if k in values then KeyName(k) + " = " + values[k] + "\n" else ""
  {
  }

  lemma {:induction false} SettingLines(keys: seq<Key>, values: map<Key, string>, k: Key)
    ensures Setting(Lines(keys, values), k) == if k in keys && k in values then Some(values[k]) else None
    decreases |keys|
  {
    if |keys| > 0 {
      SettingLines(keys[1..], values, k);
      SettingAppend(LineOf(keys[0], values), Lines(keys[1..], values), k);
      assert k in keys <==> k == keys[0] || k in keys[1..];
    }
  }

  /** Keys in strictly increasing `Rank`. */
  predicate Increasing(keys: seq<Key>)
  {
    forall i, j :: 0 <= i < j < |keys| ==> Rank(keys[i]) < Rank(keys[j])
  }

  /** Settings in strictly increasing `Rank`, headers aside. */
  predicate Ascending(es: seq<Entry>)
  {
    forall i, j :: 0 <= i < j < |es| && es[i].Set? && es[j].Set? ==> Rank(es[i].key) < Rank(es[j].key)
  }

  /** The lines of a table are settings of its keys, holding the table's values. */
  lemma {:induction false} LinesMembers(keys: seq<Key>, values: map<Key, string>)
    ensures forall e :: e in Lines(keys, values) ==> e.Set? && e.key in keys && e.key in values && values[e.key] == e.value
    decreases |keys|
  {
    if |keys| > 0 {
      LinesMembers(keys[1..], values);
      assert forall e :: e in Lines(keys, values) ==> e in LineOf(keys[0], values) || e in Lines(keys[1..], values);
    }
  }

  lemma IncreasingTail(keys: seq<Key>)
    requires |keys| > 0 && Increasing(keys)
    ensures Increasing(keys[1..])
    ensures forall k :: k in keys[1..] ==> Rank(keys[0]) < Rank(k)
  {
    forall i, j | 0 <= i < j < |keys[1..]| ensures Rank(keys[1..][i]) < Rank(keys[1..][j]) {
      assert keys[1..][i] == keys[i + 1] && keys[1..][j] == keys[j + 1];
    }
    forall k | k in keys[1..] ensures Rank(keys[0]) < Rank(k) {
      var j :| 0 <= j < |keys[1..]| && keys[1..][j] == k;
      assert keys[j + 1] == k;
    }
  }

  /** The lines of a table follow the order of its keys. */
  lemma {:induction false} LinesShape(keys: seq<Key>, values: map<Key, string>)
    requires Increasing(keys)
    ensures Ascending(Lines(keys, values))
    decreases |keys|
  {
    if |keys| > 0 {
      var head, rest := LineOf(keys[0], values), Lines(keys[1..], values);
      IncreasingTail(keys);
      LinesShape(keys[1..], values);
      LinesMembers(keys[1..], values);
      var es := head + rest;
      forall i, j | 0 <= i < j < |es| && es[i].Set? && es[j].Set? ensures Rank(es[i].key) < Rank(es[j].key) {
        if i < |head| {
          assert es[i].key == keys[0] && es[j] == rest[j - |head|] && es[j] in rest;
        } else {
          assert es[i] == rest[i - |head|] && es[j] == rest[j - |head|];
        }
      }
    }
  }

  /** Table lines are single lines when the values are. */
  lemma {:induction false} LinesOneLine(keys: seq<Key>, values: map<Key, string>)
    requires forall k :: k in values ==> '\n' !in values[k]
    ensures OneLineEach(Lines(keys, values))
    ensures forall i :: 0 <= i < |Lines(keys, values)| ==> Lines(keys, values)[i].Set?
    decreases |keys|
  {
    if |keys| > 0 {
      LinesOneLine(keys[1..], values);
      var head := LineOf(keys[0], values);
      var es := head + Lines(keys[1..], values);
      KeyNameShape(keys[0]);
      forall i | 0 <= i < |es| ensures '\n' !in EntryLine(es[i]) && es[i].Set? {
        if i < |head| {
          assert es[i] == Set(keys[0], values[keys[0]]);
        } else {
          assert es[i] == Lines(keys[1..], values)[i - |head|];
        }
      }
    }
  }
}
