/** Looking a key up in text of the form key=value,key={item,item},... */
module KeyValue {
  import opened Basics
  import opened Text

  // ---- Case-insensitive search ----

  function Lower(c: char): char {
    if 'A' <= c <= 'Z' then (c as int + 32) as char else c
  }

  /** Equal but for the case of letters. */
  predicate SameText(a: string, b: string) {
    |a| == |b| && forall i | 0 <= i < |a| :: Lower(a[i]) == Lower(b[i])
  }

  /** From its k-th character on, the pattern agrees with the text at this position. */
  predicate AgreesFrom(str: string, pattern: string, i: nat, k: nat)
    requires i + |pattern| <= |str| && k <= |pattern|
    decreases |pattern| - k
  {
    k == |pattern| || (Lower(str[i + k]) == Lower(pattern[k]) && AgreesFrom(str, pattern, i, k + 1))
  }

  predicate OccursAt(str: string, pattern: string, i: nat) {
    i + |pattern| <= |str| && AgreesFrom(str, pattern, i, 0)
  }

  lemma {:induction false} AgreesFromIff(str: string, pattern: string, i: nat, k: nat)
    requires i + |pattern| <= |str| && k <= |pattern|
    ensures AgreesFrom(str, pattern, i, k) <==> forall j | k <= j < |pattern| :: Lower(str[i + j]) == Lower(pattern[j])
    decreases |pattern| - k
  {
    if k < |pattern| {
      AgreesFromIff(str, pattern, i, k + 1);
    }
  }

  /** The first occurrence at or after a position. */
  function FindFrom(str: string, pattern: string, from: nat): (r: Option<nat>)
    ensures r.Some? ==> from <= r.value && OccursAt(str, pattern, r.value)
    decreases |str| - from
  {
    if from + |pattern| > |str| then None
    else if OccursAt(str, pattern, from) then Some(from)
    else FindFrom(str, pattern, from + 1)
  }

  lemma {:induction false} FindFromIsFirst(str: string, pattern: string, from: nat, i: nat)
    requires from <= i && OccursAt(str, pattern, i)
    ensures FindFrom(str, pattern, from).Some? && FindFrom(str, pattern, from).value <= i
    decreases i - from
  {
    if !OccursAt(str, pattern, from) {
      FindFromIsFirst(str, pattern, from + 1, i);
    }
  }

  /** The n-th occurrence, counting only occurrences that do not overlap the one before. */
  function FindNth(str: string, pattern: string, n: nat): (r: Option<nat>)
    ensures r.Some? ==> OccursAt(str, pattern, r.value)
  {
    if n == 0 then FindFrom(str, pattern, 0)
    else
      var p := FindNth(str, pattern, n - 1);
      if p.None? then None else FindFrom(str, pattern, p.value + |pattern|)
  }

  /** A match counts only at the beginning or right after a comma. */
  predicate Accepted(str: string, i: nat)
    requires i <= |str|
  {
    i == 0 || str[i - 1] == ','
  }

  /** The first counting match from a position on. */
  function Search(str: string, pattern: string, from: nat): Option<nat>
    requires pattern != ""
    decreases |str| - from
  {
    var p := FindFrom(str, pattern, from);
    if p.None? || Accepted(str, p.value) then p else Search(str, pattern, p.value + |pattern|)
  }

  // ---- Extraction ----

  /** The value of the entry that the text starts with. */
  function Extract(chopped: string): string
    requires '=' in chopped
  {
    FindIsFirst(chopped, '=');
    var equal := Find(chopped, '=');
    var twice := chopped[equal..];
    if |twice| > 1 && twice[1] == '{' then
      var end := Find(twice, '}');
      FindIsFirst(twice, '}');
      twice[2..end]
    else
      var end := Find(twice, ',');
      FindIsFirst(twice, ',');
      twice[1..end]
  }

  function Lookup(str: string, key: string): Option<string> {
    var p := Search(str, key + "=", 0);
    if p.None? then None
    else
      SearchOccurs(str, key, 0);
      Some(Extract(str[p.value..]))
  }

  lemma {:induction false} SearchOccurs(str: string, key: string, from: nat)
    ensures var p := Search(str, key + "=", from);
      p.Some? ==> from <= p.value && OccursAt(str, key + "=", p.value) && Accepted(str, p.value)
                  && p.value + |key| < |str| && str[p.value + |key|] == '=' && '=' in str[p.value..]
    decreases |str| - from
  {
    var pattern := key + "=";
    var p := FindFrom(str, pattern, from);
    if p.Some? && !Accepted(str, p.value) {
      SearchOccurs(str, key, p.value + |pattern|);
    } else if p.Some? {
      EqualsFollows(str, key, p.value);
    }
  }

  lemma EqualsFollows(str: string, key: string, i: nat)
    requires OccursAt(str, key + "=", i)
    ensures str[i + |key|] == '=' && '=' in str[i..]
    ensures forall k | 0 <= k < |key| :: Lower(str[i + k]) == Lower(key[k])
  {
    var pattern := key + "=";
    AgreesFromIff(str, pattern, i, 0);
    assert Lower(str[i + |key|]) == Lower(pattern[|key|]);
    assert str[i..][|key|] == str[i + |key|];
    assert forall k | 0 <= k < |key| :: key[k] == pattern[k];
  }

  /** A numbered match is the first one behind the match before it. */
  lemma {:induction false} NthIsNext(str: string, pattern: string, n: nat, from: nat)
    requires if n == 0 then from == 0 else var p := FindNth(str, pattern, n - 1); p.Some? && from == p.value + |pattern|
    ensures FindNth(str, pattern, n) == FindFrom(str, pattern, from)
  {
  }

  /** The loop that tries one numbered match after another until one counts or there is none left. */
  method FirstMatch(str: string, pattern: string) returns (start: Option<nat>)
    requires pattern != ""
    ensures start == Search(str, pattern, 0)
  {
    var count := 0;
    start := Some(0);
    ghost var from: nat := 0;
    while count == 0 || !(start.None? || start.value == 0 || str[start.value - 1] == ',')
      invariant count > 0 ==> start == FindNth(str, pattern, count - 1) == FindFrom(str, pattern, from)
      invariant count == 0 ==> from == 0
      invariant Search(str, pattern, 0) == Search(str, pattern, from)
      decreases count == 0, |str| + 1 - from
    {
      if count > 0 {
        from := start.value + |pattern|;
      }
      NthIsNext(str, pattern, count, from);
      start := FindNth(str, pattern, count);
      count := count + 1;
    }
  }

  method ValFromString(str: string, key: string) returns (found: bool, out: string)
    ensures found <==> Lookup(str, key).Some?
    ensures out == if found then Lookup(str, key).value else ""
  {
    var start := FirstMatch(str, key + "=");
    SearchOccurs(str, key, 0);
    if start.None? {
      return false, "";
    }
    var chopped := str[start.value..];
    var equal := Find(chopped, '=');
    FindIsFirst(chopped, '=');
    var isArray := equal + 1 < |chopped| && chopped[equal + 1] == '{';
    var twice := chopped[equal..];
    FindIsFirst(twice, '}');
    FindIsFirst(twice, ',');
    var end := if isArray then Find(twice, '}') else Find(twice, ',');
    out := if isArray then twice[2..end] else twice[1..end];
    found := true;
  }

  // ---- Printed lists ----

  datatype Entry = Scalar(key: string, value: string) | Array(key: string, items: seq<string>)

  /** Free of the characters that structure the text. */
  predicate Clean(s: string) {
    ',' !in s && '=' !in s && '{' !in s && '}' !in s
  }

  predicate CleanEntry(e: Entry) {
    Clean(e.key) && if e.Scalar? then Clean(e.value) else forall i | 0 <= i < |e.items| :: Clean(e.items[i])
  }

  function Join(parts: seq<string>): string {
    if parts == [] then "" else if |parts| == 1 then parts[0] else parts[0] + "," + Join(parts[1..])
  }

  function ValueOf(e: Entry): string {
    if e.Scalar? then e.value else Join(e.items)
  }

  function PrintValue(e: Entry): string {
    if e.Scalar? then e.value else "{" + Join(e.items) + "}"
  }

  function PrintEntry(e: Entry): string {
    e.key + "=" + PrintValue(e)
  }

  function Print(es: seq<Entry>): string {
    if es == [] then "" else if |es| == 1 then PrintEntry(es[0]) else PrintEntry(es[0]) + "," + Print(es[1..])
  }

  /** The value of the first entry with the key. */
  function FirstEntry(es: seq<Entry>, key: string): Option<string> {
    if es == [] then None
    else if SameText(es[0].key, key) then Some(ValueOf(es[0]))
    else FirstEntry(es[1..], key)
  }

  // ---- The search finds every counting match ----

  lemma LowerKeepsStructure(a: char, b: char)
    requires Lower(a) == Lower(b) && (b == ',' || b == '=' || b == '{' || b == '}')
    ensures a == b
  {
  }

  /** A match is no longer within reach of another one: the pattern has its only equals sign at the end. */
  lemma MatchesDoNotOverlap(str: string, key: string, i: nat, j: nat)
    requires '=' !in key && OccursAt(str, key + "=", i) && OccursAt(str, key + "=", j) && i < j
    ensures i + |key| + 1 <= j
  {
    EqualsFollows(str, key, i);
    EqualsFollows(str, key, j);
    if j <= i + |key| {
      var k := i + |key| - j;
      assert Lower(str[j + k]) == Lower(key[k]);
      LowerKeepsStructure(key[k], '=');
    }
  }

  /** The search returns the least counting match at or after its start, if there is one. */
  lemma {:induction false} SearchIsLeast(str: string, key: string, from: nat, i: nat)
    requires '=' !in key && from <= i && OccursAt(str, key + "=", i) && Accepted(str, i)
    ensures var p := Search(str, key + "=", from); p.Some? && p.value <= i
    decreases |str| - from
  {
    FindFromIsFirst(str, key + "=", from, i);
    var p := FindFrom(str, key + "=", from);
    if !Accepted(str, p.value) {
      MatchesDoNotOverlap(str, key, p.value, i);
      SearchIsLeast(str, key, p.value + |key| + 1, i);
    }
  }

  // ---- Matches in a printed list ----

  /** The structure of one printed entry: its only equals sign follows the key. */
  lemma {:induction false} JoinHasNo(parts: seq<string>, c: char)
    requires c != ',' && forall i | 0 <= i < |parts| :: c !in parts[i]
    ensures c !in Join(parts)
  {
    if |parts| > 1 {
      JoinHasNo(parts[1..], c);
      assert Join(parts) == parts[0] + "," + Join(parts[1..]);
    }
  }

  lemma EqualsSignOfEntry(e: Entry, i: nat)
    requires CleanEntry(e) && i < |PrintEntry(e)|
    ensures PrintEntry(e)[i] == '=' <==> i == |e.key|
  {
    if e.Array? {
      JoinHasNo(e.items, '=');
      assert '=' !in "{" + Join(e.items) + "}";
    }
    if i < |e.key| {
      assert PrintEntry(e)[i] in e.key;
    } else if i > |e.key| {
      assert PrintEntry(e)[i] == PrintValue(e)[i - |e.key| - 1];
      assert PrintEntry(e)[i] in PrintValue(e);
    }
  }

  /** A match cannot reach across a comma. */
  lemma MatchIsCommaFree(str: string, key: string, i: nat, k: nat)
    requires Clean(key) && OccursAt(str, key + "=", i) && i <= k <= i + |key|
    ensures str[k] != ','
  {
    EqualsFollows(str, key, i);
    if k < i + |key| && str[k] == ',' {
      assert Lower(str[i + (k - i)]) == Lower(key[k - i]);
      LowerKeepsStructure(key[k - i], ',');
    }
  }

  /**
   In one entry followed by anything that starts with a comma, a counting match within it is
   the whole key at its beginning.
   */
  lemma MatchInEntry(e: Entry, tail: string, key: string, i: nat)
    requires CleanEntry(e) && Clean(key) && (tail == "" || tail[0] == ',')
    requires var str := PrintEntry(e) + tail;
      OccursAt(str, key + "=", i) && Accepted(str, i) && i <= |PrintEntry(e)|
    ensures i == 0 && SameText(e.key, key)
  {
    var p := PrintEntry(e);
    var str := p + tail;
    EqualsFollows(str, key, i);
    if i + |key| >= |p| {
      MatchIsCommaFree(str, key, i, |p|);
    }
    assert str[i + |key|] == p[i + |key|];
    EqualsSignOfEntry(e, i + |key|);
    assert forall k | 0 <= k < |e.key| :: str[k] == e.key[k];
  }

  /** The whole key at the beginning of an entry is a counting match. */
  lemma EntryMatches(e: Entry, tail: string, key: string)
    requires SameText(e.key, key)
    ensures var str := PrintEntry(e) + tail; OccursAt(str, key + "=", 0) && Accepted(str, 0)
  {
    var str := PrintEntry(e) + tail;
    assert str == e.key + "=" + (PrintValue(e) + tail);
    KeyOccurs(e.key, key, PrintValue(e) + tail);
  }

  lemma KeyOccurs(written: string, key: string, more: string)
    requires SameText(written, key)
    ensures OccursAt(written + "=" + more, key + "=", 0)
  {
    var str, pattern := written + "=" + more, key + "=";
    assert str[|key|] == '=' == pattern[|key|];
    assert forall k | 0 <= k < |key| :: str[k] == written[k] && pattern[k] == key[k];
    AgreesFromIff(str, pattern, 0, 0);
  }

  lemma {:induction false} AgreesBehind(str: string, n: nat, pattern: string, j: nat, k: nat)
    requires n + j + |pattern| <= |str| && k <= |pattern|
    ensures AgreesFrom(str, pattern, n + j, k) <==> AgreesFrom(str[n..], pattern, j, k)
    decreases |pattern| - k
  {
    if k < |pattern| {
      AgreesBehind(str, n, pattern, j, k + 1);
    }
  }

  /** Matches behind a comma are the matches of what follows the comma. */
  lemma MatchBehind(front: string, rest: string, key: string, i: nat)
    requires i > |front|
    ensures var str := front + "," + rest; var j := i - |front| - 1;
      && (OccursAt(str, key + "=", i) <==> OccursAt(rest, key + "=", j))
      && (i <= |str| ==> (Accepted(str, i) <==> Accepted(rest, j)))
  {
    var str, j := front + "," + rest, i - |front| - 1;
    assert str[|front|] == ',' && forall k | 0 <= k < |rest| :: str[|front| + 1 + k] == rest[k];
    assert str[|front| + 1..] == rest;
    if i + |key| < |str| {
      AgreesBehind(str, |front| + 1, key + "=", j, 0);
    }
  }

  // ---- The value of an entry ----

  lemma ExtractScalar(value: string, tail: string)
    requires Clean(value) && (tail == "" || tail[0] == ',')
    ensures var twice := "=" + value + tail; !(|twice| > 1 && twice[1] == '{')
    ensures var twice := "=" + value + tail; Find(twice, ',') == |value| + 1 && twice[1..|value| + 1] == value
  {
    var twice := "=" + value + tail;
    assert twice[..|value| + 1] == "=" + value && twice[1..|value| + 1] == value;
    FindIsFirst(twice, ',');
    if tail == "" {
      assert twice == "=" + value && ',' !in twice;
    } else {
      assert twice[|value| + 1] == ',';
      FirstIsFound(twice, ',', |value| + 1);
    }
    if value != "" {
      assert twice[1] == value[0] && value[0] in value;
    }
  }

  lemma ExtractArray(items: string, tail: string)
    requires '}' !in items
    ensures var twice := "=" + ("{" + items + "}") + tail;
      |twice| > 1 && twice[1] == '{' && Find(twice, '}') == |items| + 2 && twice[2..|items| + 2] == items
  {
    var twice := "=" + ("{" + items + "}") + tail;
    assert twice == "={" + items + ("}" + tail);
    assert twice[..|items| + 2] == "={" + items && twice[|items| + 2] == '}';
    FirstIsFound(twice, '}', |items| + 2);
  }

  lemma ExtractEntry(e: Entry, tail: string)
    requires CleanEntry(e) && (tail == "" || tail[0] == ',')
    ensures var str := PrintEntry(e) + tail; '=' in str && Extract(str) == ValueOf(e)
  {
    var str := PrintEntry(e) + tail;
    assert str[..|e.key|] == e.key && str[|e.key|] == '=';
    FirstIsFound(str, '=', |e.key|);
    assert str[|e.key|..] == "=" + PrintValue(e) + tail;
    if e.Scalar? {
      ExtractScalar(e.value, tail);
    } else {
      JoinHasNo(e.items, '}');
      ExtractArray(Join(e.items), tail);
    }
  }

  // ---- Looking up undoes printing ----

  ghost predicate Counts(str: string, key: string, i: nat) {
    OccursAt(str, key + "=", i) && Accepted(str, i)
  }

  /** The position, if any, is that of the first counting match. */
  ghost predicate IsFirst(str: string, key: string, p: Option<nat>) {
    && (p.Some? ==> Counts(str, key, p.value))
    && forall i: nat | Counts(str, key, i) :: p.Some? && p.value <= i
  }

  /** The search finds the first counting match. */
  lemma SearchIs(str: string, key: string, p: Option<nat>)
    requires '=' !in key && IsFirst(str, key, p)
    ensures Search(str, key + "=", 0) == p
  {
    SearchOccurs(str, key, 0);
    var q := Search(str, key + "=", 0);
    if p.Some? {
      SearchIsLeast(str, key, 0, p.value);
    }
    assert q.Some? ==> Counts(str, key, q.value);
  }

  /** An entry with another key is passed over. */
  lemma CountsBehind(e: Entry, rest: string, key: string, i: nat)
    requires CleanEntry(e) && Clean(key) && !SameText(e.key, key)
    ensures var str := PrintEntry(e) + "," + rest; var shift := |PrintEntry(e)| + 1;
      Counts(str, key, i) <==> i >= shift && Counts(rest, key, i - shift)
  {
    var front := PrintEntry(e);
    if i <= |front| {
      assert front + "," + rest == front + ("," + rest);
      if Counts(front + "," + rest, key, i) {
        MatchInEntry(e, "," + rest, key, i);
      }
    } else {
      MatchBehind(front, rest, key, i);
    }
  }

  lemma FirstBehind(e: Entry, rest: string, key: string, q: Option<nat>)
    requires CleanEntry(e) && Clean(key) && !SameText(e.key, key) && IsFirst(rest, key, q)
    ensures IsFirst(PrintEntry(e) + "," + rest, key, if q.Some? then Some(q.value + |PrintEntry(e)| + 1) else None)
  {
    var str, shift := PrintEntry(e) + "," + rest, |PrintEntry(e)| + 1;
    if q.Some? {
      CountsBehind(e, rest, key, q.value + shift);
    }
    forall i: nat | Counts(str, key, i)
      ensures q.Some? && q.value + shift <= i
    {
      CountsBehind(e, rest, key, i);
    }
  }

  lemma NothingInOneEntry(e: Entry, key: string)
    requires CleanEntry(e) && Clean(key) && !SameText(e.key, key)
    ensures IsFirst(PrintEntry(e), key, None)
  {
    forall i: nat | Counts(PrintEntry(e), key, i)
      ensures false
    {
      assert PrintEntry(e) + "" == PrintEntry(e);
      MatchInEntry(e, "", key, i);
    }
  }

  /** The first counting match in a printed list is at the first entry with the key. */
  lemma {:induction false} FirstInPrint(es: seq<Entry>, key: string) returns (p: Option<nat>)
    requires Clean(key) && forall i | 0 <= i < |es| :: CleanEntry(es[i])
    ensures IsFirst(Print(es), key, p) && (p.Some? <==> FirstEntry(es, key).Some?)
    ensures p.Some? ==> '=' in Print(es)[p.value..] && Extract(Print(es)[p.value..]) == FirstEntry(es, key).value
    decreases |es|
  {
    if es == [] {
      return None;
    }
    var e, rest := es[0], es[1..];
    var tail := if rest == [] then "" else "," + Print(rest);
    var str := Print(es);
    assert str == PrintEntry(e) + tail;
    if SameText(e.key, key) {
      p := Some(0);
      EntryMatches(e, tail, key);
      ExtractEntry(e, tail);
      assert str[0..] == str;
    } else if rest == [] {
      p := None;
      assert str == PrintEntry(e);
      NothingInOneEntry(e, key);
    } else {
      var q := FirstInPrint(rest, key);
      FirstBehind(e, Print(rest), key, q);
      p := if q.Some? then Some(q.value + |PrintEntry(e)| + 1) else None;
      if q.Some? {
        assert str[p.value..] == Print(rest)[q.value..];
      }
    }
  }

  /** In any printed list of clean entries, looking a clean key up gives the value of the first entry with that key. */
  lemma LookupUndoesPrint(es: seq<Entry>, key: string)
    requires Clean(key) && forall i | 0 <= i < |es| :: CleanEntry(es[i])
    ensures Lookup(Print(es), key) == FirstEntry(es, key)
  {
    var p := FirstInPrint(es, key);
    SearchIs(Print(es), key, p);
  }
}
