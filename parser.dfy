/** `parseRecord` of `src/utils/parser.js`: a record line `email:password | Key = Value |
    ...` becomes a dictionary. The line is split on `|` and every segment trimmed; the
    first segment gives `email` and `password` (or `rawFirst`), each later one a
    `Key = Value` pair or, without `=`, a `Field_<i>` entry. */
module Parser {
  import opened Common
  import Text

  type Fields = map<string, string>

  /** The line split on `|`, every segment trimmed. Never empty. */
  function Segments(line: string): (parts: seq<string>)
    ensures |parts| == |Text.Split(line, '|')| && |parts| >= 1
    ensures forall k :: 0 <= k < |parts| ==> parts[k] == Text.Trim(Text.Split(line, '|')[k])
    ensures forall k :: 0 <= k < |parts| ==> '|' !in parts[k]
  {
    var pieces := Text.Split(line, '|');
    var parts := seq(|pieces|, k requires 0 <= k < |pieces| => Text.Trim(pieces[k]));
    assert forall k :: 0 <= k < |parts| ==> '|' !in parts[k] by {
      forall k | 0 <= k < |parts| ensures '|' !in parts[k] {
        Text.TrimKeepsChars(pieces[k], '|');
      }
    }
    parts
  }

  /** The writes the first segment makes: `email` and `password`, the trimmed first two
      pieces around `:` (anything after a second `:` is dropped), or else `rawFirst`. */
  function HeadFields(first: string): (fs: seq<(string, string)>)
    ensures ':' in first ==> |fs| == 2 && fs[0].0 == "email" && fs[1].0 == "password"
    ensures ':' in first ==> ':' !in fs[0].1 && ':' !in fs[1].1
    ensures ':' in first ==> fs[0].1 == Text.Trim(Text.Split(first, ':')[0])
    ensures ':' in first ==> fs[1].1 == Text.Trim(Text.Split(first, ':')[1])
    ensures ':' !in first ==> fs == [("rawFirst", first)]
  {
    if ':' in first then
      var pieces := Text.Split(first, ':');
      Text.TrimKeepsChars(pieces[0], ':');
      Text.TrimKeepsChars(pieces[1], ':');
      [("email", Text.Trim(pieces[0])), ("password", Text.Trim(pieces[1]))]
    else
      [("rawFirst", first)]
  }

  /** The write segment `i` makes: around its FIRST `=`, the trimmed key and the trimmed
      value (which may hold further `=`); without `=`, the whole segment under `Field_i`. */
  function SegmentField(i: nat, part: string): (kv: (string, string))
    ensures '=' !in part ==> kv == ("Field_" + Text.DecimalString(i), part)
    ensures '=' in part ==> '=' !in kv.0
    ensures '=' in part ==>
              var j := Text.IndexOf(part, '=').value;
              kv == (Text.Trim(part[..j]), Text.Trim(part[j + 1..]))
  {
    match Text.IndexOf(part, '=')
    case None => ("Field_" + Text.DecimalString(i), part)
    case Some(j) =>
      Text.TrimKeepsChars(part[..j], '=');
      (Text.Trim(part[..j]), Text.Trim(part[j + 1..]))
  }

  /** The writes of segments 1 .. n-1, in order. */
  function BodyFields(parts: seq<string>, n: nat): (fs: seq<(string, string)>)
    requires 1 <= n <= |parts|
    ensures |fs| == n - 1
    ensures forall k :: 0 <= k < n - 1 ==> fs[k] == SegmentField(k + 1, parts[k + 1])
  {
    seq(n - 1, k requires 0 <= k < n - 1 => SegmentField(k + 1, parts[k + 1]))
  }

  /** `data[key] = value` on a plain object: assigning a string to `__proto__` creates no
      own property, every other key is set or overwritten. */
  function Assign(data: Fields, kv: (string, string)): (d: Fields)
    ensures kv.0 != "__proto__" ==> d == data[kv.0 := kv.1]
    ensures kv.0 == "__proto__" ==> d == data
  {
    if kv.0 == "__proto__" then data else data[kv.0 := kv.1]
  }

  /** The writes performed one after the other. */
  function Apply(data: Fields, fs: seq<(string, string)>): (d: Fields)
    // a write never removes a key ...
    ensures data.Keys <= d.Keys
    // ... and a key no write names keeps its value
    ensures forall k :: k in data && (forall j :: 0 <= j < |fs| ==> fs[j].0 != k) ==> d[k] == data[k]
    decreases |fs|
  {
    if fs == [] then data else Assign(Apply(data, fs[..|fs| - 1]), fs[|fs| - 1])
  }

  /** The dictionary the writes of all segments leave, head first. */
  function Dictionary(parts: seq<string>): (d: Fields)
    requires |parts| >= 1
    // the first segment always leaves `email` and `password`, or `rawFirst`
    ensures ':' in parts[0] ==> "email" in d && "password" in d
    ensures ':' !in parts[0] ==> "rawFirst" in d
  {
    var head := HeadFields(parts[0]);
    if ':' in parts[0] then
      assert head[..1] == [head[0]] && [head[0]][..0] == [];
      assert Apply(map[], [head[0]]) == map["email" := head[0].1];
      assert Apply(map[], head) == map["email" := head[0].1, "password" := head[1].1];
      Apply(Apply(map[], head), BodyFields(parts, |parts|))
    else
      Apply(Apply(map[], head), BodyFields(parts, |parts|))
  }

  /** What `parseRecord` answers: `None` (JavaScript `null`) for a missing or empty line,
      otherwise the dictionary of its segments. */
  function Parsed(line: Option<string>): (r: Option<Fields>)
    ensures r.None? <==> !Truthy(line)
    ensures r.Some? ==> r.value == Dictionary(Segments(line.value))
  {
    if !Truthy(line) then None else Some(Dictionary(Segments(line.value)))
  }

  /** `parseRecord(line)`; a non-string argument is modelled as `None`. */
  method ParseRecord(line: Option<string>) returns (r: Option<Fields>)
    ensures r == Parsed(line)
    ensures r.None? <==> !Truthy(line)
  {
    if !Truthy(line) {
      return None;
    }
    var parts := Segments(line.value);
    var data := ParseHead(parts[0]);
    ghost var head := data;
    var i := 1;
    while i < |parts|
      invariant 1 <= i <= |parts|
      invariant data == Apply(head, BodyFields(parts, i))
    {
      data := ParseSegment(data, i, parts[i]);
      BodyStep(head, parts, i);
      i := i + 1;
    }
    r := Some(data);
  }

  /** The first segment's writes into the empty dictionary. */
  method ParseHead(firstPart: string) returns (data: Fields)
    ensures data == Apply(map[], HeadFields(firstPart))
  {
    data := map[];
    if ':' in firstPart {
      var pieces := Text.Split(firstPart, ':');
      data := data["email" := Text.Trim(pieces[0])];
      data := data["password" := Text.Trim(pieces[1])];
    } else {
      data := data["rawFirst" := firstPart];
    }
    HeadData(firstPart);
  }

  /** One turn of the loop over segments 1 .. n-1: segment `i` written into `data`. */
  method ParseSegment(data: Fields, i: nat, part: string) returns (d: Fields)
    ensures d == Assign(data, SegmentField(i, part))
  {
    d := data;
    var separatorIndex := Text.IndexOf(part, '=');
    if separatorIndex.Some? {
      var key := Text.Trim(part[..separatorIndex.value]);
      var value := Text.Trim(part[separatorIndex.value + 1..]);
      if key != "__proto__" {
        d := d[key := value];
      }
      assert SegmentField(i, part) == (key, value);
    } else {
      var key := "Field_" + Text.DecimalString(i);
      assert key[0] != "__proto__"[0];
      d := d[key := part];
      assert SegmentField(i, part) == (key, part);
    }
  }

  /* ---------- What the dictionary holds ---------- */

  /** Of several writes to one key the last one wins. */
  lemma {:induction false} LastWriteWins(data: Fields, fs: seq<(string, string)>, k: nat)
    requires k < |fs| && fs[k].0 != "__proto__"
    requires forall j :: k < j < |fs| ==> fs[j].0 != fs[k].0
    ensures fs[k].0 in Apply(data, fs) && Apply(data, fs)[fs[k].0] == fs[k].1
    decreases |fs|
  {
    var n := |fs| - 1;
    var init := fs[..n];
    if k < n {
      assert forall j :: k < j < |init| ==> init[j] == fs[j];
      LastWriteWins(data, init, k);
    }
  }

  /** A key nobody writes keeps its old state. */
  lemma {:induction false} Unwritten(data: Fields, fs: seq<(string, string)>, key: string)
    requires forall j :: 0 <= j < |fs| ==> fs[j].0 != key
    ensures key in Apply(data, fs) <==> key in data
    ensures key in data ==> Apply(data, fs)[key] == data[key]
    decreases |fs|
  {
    if fs != [] {
      Unwritten(data, fs[..|fs| - 1], key);
    }
  }

  /** `__proto__` never becomes an own key, whatever the writes. */
  lemma {:induction false} NoProtoKey(data: Fields, fs: seq<(string, string)>)
    requires "__proto__" !in data
    ensures "__proto__" !in Apply(data, fs)
    decreases |fs|
  {
    if fs != [] {
      NoProtoKey(data, fs[..|fs| - 1]);
    }
  }

  /** Segment `i >= 1` determines its key's value unless a later segment writes the same
      key: `Key = Value` for a segment with `=`, `Field_i` mapped to the segment
      otherwise. */
  lemma SegmentValue(parts: seq<string>, i: nat)
    requires 1 <= i < |parts|
    requires SegmentField(i, parts[i]).0 != "__proto__"
    requires forall j :: i < j < |parts| ==> SegmentField(j, parts[j]).0 != SegmentField(i, parts[i]).0
    ensures var kv := SegmentField(i, parts[i]);
            kv.0 in Dictionary(parts) && Dictionary(parts)[kv.0] == kv.1
  {
    var head := Apply(map[], HeadFields(parts[0]));
    var fs := BodyFields(parts, |parts|);
    var kv := SegmentField(i, parts[i]);
    assert fs[i - 1] == kv;
    forall j | i - 1 < j < |fs| ensures fs[j].0 != kv.0 {
      assert fs[j] == SegmentField(j + 1, parts[j + 1]);
    }
    LastWriteWins(head, fs, i - 1);
    assert Dictionary(parts) == Apply(head, fs);
  }

  /** The dictionary the first segment alone gives. */
  lemma HeadData(first: string)
    ensures var d := Apply(map[], HeadFields(first));
            var pieces := Text.Split(first, ':');
            && (':' in first ==> d == map["email" := Text.Trim(pieces[0]), "password" := Text.Trim(pieces[1])])
            && (':' !in first ==> d == map["rawFirst" := first])
  {
    var h := HeadFields(first);
    if ':' in first {
      assert h[..1][..0] == [];
      assert Apply(map[], h[..1]) == map[h[0].0 := h[0].1];
      assert h[..|h| - 1] == h[..1];
      assert Apply(map[], h) == map[h[0].0 := h[0].1][h[1].0 := h[1].1];
    } else {
      assert h[..0] == [];
    }
  }

  /** One more segment is one more write. */
  lemma BodyStep(head: Fields, parts: seq<string>, i: nat)
    requires 1 <= i < |parts|
    ensures Apply(head, BodyFields(parts, i + 1)) ==
            Assign(Apply(head, BodyFields(parts, i)), SegmentField(i, parts[i]))
  {
    assert BodyFields(parts, i + 1)[..i - 1] == BodyFields(parts, i);
  }

  /** With a `:` in the first segment, `email` and `password` are the first two
      `:`-separated pieces of it, trimmed (anything after a second `:` is dropped), unless
      a later segment overwrites them. */
  lemma CredentialsFromHead(parts: seq<string>, key: string)
    requires |parts| >= 1 && ':' in parts[0]
    requires key == "email" || key == "password"
    requires forall j :: 1 <= j < |parts| ==> SegmentField(j, parts[j]).0 != key
    ensures var pieces := Text.Split(parts[0], ':');
            key in Dictionary(parts) &&
            Dictionary(parts)[key] == Text.Trim(if key == "email" then pieces[0] else pieces[1])
  {
    HeadData(parts[0]);
    Unwritten(Apply(map[], HeadFields(parts[0])), BodyFields(parts, |parts|), key);
  }

  /** Without a `:` in the first segment there is no `email` and no `password` unless a
      later segment writes them, and `rawFirst` holds the first segment. */
  lemma NoColonHead(parts: seq<string>)
    requires |parts| >= 1 && ':' !in parts[0]
    requires forall j :: 1 <= j < |parts| ==>
               SegmentField(j, parts[j]).0 !in {"email", "password", "rawFirst"}
    ensures var d := Dictionary(parts);
            && "email" !in d && "password" !in d
            && "rawFirst" in d && d["rawFirst"] == parts[0]
  {
    var fs := BodyFields(parts, |parts|);
    HeadData(parts[0]);
    Unwritten(map["rawFirst" := parts[0]], fs, "email");
    Unwritten(map["rawFirst" := parts[0]], fs, "password");
    Unwritten(map["rawFirst" := parts[0]], fs, "rawFirst");
  }

  /** Any non-empty line gives a dictionary, and it never has `__proto__` as a key. */
  lemma NonEmptyLineParses(line: string)
    requires line != ""
    ensures Parsed(Some(line)).Some?
    ensures "__proto__" !in Parsed(Some(line)).value
  {
    var parts := Segments(line);
    HeadData(parts[0]);
    NoProtoKey(Apply(map[], HeadFields(parts[0])), BodyFields(parts, |parts|));
  }
}
