/** The text list of snapshots that daemon/src/main.rs keeps beside the image: one line an
    entry, its fields separated by bars. */
module MetaList {
  import opened Machine

  datatype Meta = Meta(id: uint32, timestamp: string, desc: string)

  // ----- Printing -----

  function Digit(d: int): char
    requires 0 <= d < 10
  {
    ('0' as int + d) as char
  }

  function Decimal(n: nat): (r: string)
    ensures r != []
    ensures forall i :: 0 <= i < |r| ==> '0' <= r[i] <= '9'
  {
    if n < 10 then [Digit(n)] else Decimal(n / 10) + [Digit(n % 10)]
  }

  function Body(e: Meta): string {
    Decimal(e.id) + "|" + e.timestamp + "|" + e.desc
  }

  /** What save_meta writes. */
  function Save(l: seq<Meta>): string
    decreases |l|
  {
    if l == [] then "" else Body(l[0]) + "\n" + Save(l[1..])
  }

  // ----- Reading -----

  /** Where a character first is, or the length. */
  function IndexOf(s: string, c: char): (i: nat)
    ensures i <= |s| && (i < |s| ==> s[i] == c) && c !in s[..i]
    decreases |s|
  {
    if s == [] || s[0] == c then 0
    else
      var i := IndexOf(s[1..], c);
      assert s[..i + 1] == [s[0]] + s[1..][..i];
      i + 1
  }

  function StripCr(s: string): (r: string)
    ensures r <= s
  {
    if s != [] && s[|s| - 1] == '\r' then s[..|s| - 1] else s
  }

  /** BufRead::lines: a line loses its newline and then one carriage return; a last line
      without a newline is kept as it is. */
  function Lines(s: string): seq<string>
    decreases |s|
  {
    if s == [] then []
    else
      var i := IndexOf(s, '\n');
      if i == |s| then [s] else [StripCr(s[..i])] + Lines(s[i + 1..])
  }

  /** u32::from_str, on the digits. */
  function ParseDigits(s: string, acc: nat): Option<nat>
    decreases |s|
  {
    if s == [] then Some(acc)
    else if !('0' <= s[0] <= '9') || acc * 10 + (s[0] as int - '0' as int) >= TWO_32 then None
    else ParseDigits(s[1..], acc * 10 + (s[0] as int - '0' as int))
  }

  function ParseId(s: string): Option<nat> {
    if s == [] then None
    else if s[0] == '+' && |s| > 1 then ParseDigits(s[1..], 0)
    else ParseDigits(s, 0)
  }

  /** One line: splitn(3, '|'), and the first part read as a number. */
  function ParseLine(line: string): Option<Meta> {
    var i := IndexOf(line, '|');
    if i == |line| then None
    else
      var rest := line[i + 1..];
      var j := IndexOf(rest, '|');
      if j == |rest| then None
      else match ParseId(line[..i])
           case None => None
           case Some(id) => if id < TWO_32 then Some(Meta(id, rest[..j], rest[j + 1..])) else None
  }

  function LoadLines(ls: seq<string>): seq<Meta>
    decreases |ls|
  {
    if ls == [] then []
    else (match ParseLine(ls[0]) case None => [] case Some(e) => [e]) + LoadLines(ls[1..])
  }

  /** What load_meta makes of a file; lines it cannot read are dropped. */
  function Load(s: string): seq<Meta> {
    LoadLines(Lines(s))
  }

  // ----- Numbers -----

  lemma {:induction false} ParseJoined(s: string, t: string, acc: nat)
    ensures ParseDigits(s + t, acc) == match ParseDigits(s, acc) case None => None case Some(a) => ParseDigits(t, a)
    decreases |s|
  {
    if s == [] {
      assert s + t == t;
    } else {
      assert (s + t)[1..] == s[1..] + t;
      if '0' <= s[0] <= '9' && acc * 10 + (s[0] as int - '0' as int) < TWO_32 {
        ParseJoined(s[1..], t, acc * 10 + (s[0] as int - '0' as int));
      }
    }
  }

  lemma {:induction false} ParseDecimal(n: nat)
    requires n < TWO_32
    ensures ParseDigits(Decimal(n), 0) == Some(n)
    decreases n
  {
    if n >= 10 {
      ParseDecimal(n / 10);
      ParseJoined(Decimal(n / 10), [Digit(n % 10)], 0);
    }
  }

  lemma ParseIdDecimal(n: nat)
    requires n < TWO_32
    ensures ParseId(Decimal(n)) == Some(n)
  {
    ParseDecimal(n);
    assert '0' <= Decimal(n)[0] <= '9';
  }

  // ----- The round trip -----

  /** The entries a file can hold apart from their last character. */
  predicate Clean(e: Meta) {
    '|' !in e.timestamp && '\n' !in e.timestamp && '\n' !in e.desc
  }

  predicate Kept(e: Meta) {
    Clean(e) && (e.desc == [] || e.desc[|e.desc| - 1] != '\r')
  }

  lemma {:induction false} IndexAfter(s: string, c: char, t: string)
    requires c !in s
    ensures IndexOf(s + [c] + t, c) == |s|
    decreases |s|
  {
    if s != [] {
      assert s[0] != c;
      assert (s + [c] + t)[1..] == s[1..] + [c] + t;
      IndexAfter(s[1..], c, t);
    }
  }

  lemma SplitAfter(s: string, c: char, t: string)
    ensures var u := s + [c] + t; |s| < |u| && u[..|s|] == s && u[|s| + 1..] == t
  {
  }

  lemma StripTail(s: string, c: char, t: string)
    requires c != '\r'
    ensures StripCr(s + [c] + t) == s + [c] + StripCr(t)
  {
    var u := s + [c] + t;
    if t == [] {
      assert u[|u| - 1] == c;
    } else {
      assert u[|u| - 1] == t[|t| - 1];
    }
  }

  /** A printed entry parses to itself less one final carriage return. */
  lemma ParseBody(e: Meta)
    requires Clean(e)
    ensures '\n' !in Body(e)
    ensures ParseLine(StripCr(Body(e))) == Some(e.(desc := StripCr(e.desc)))
  {
    hide Decimal, StripCr, ParseId, IndexOf;
    var id, d := Decimal(e.id), StripCr(e.desc);
    var rest := e.timestamp + ['|'] + d;
    assert Body(e) == id + ['|'] + (e.timestamp + ['|'] + e.desc);
    StripTail(id, '|', e.timestamp + ['|'] + e.desc);
    StripTail(e.timestamp, '|', e.desc);
    var line := id + ['|'] + rest;
    IndexAfter(id, '|', rest);
    IndexAfter(e.timestamp, '|', d);
    SplitAfter(id, '|', rest);
    SplitAfter(e.timestamp, '|', d);
    ParseIdDecimal(e.id);
  }

  function Stripped(l: seq<Meta>): (r: seq<Meta>)
    ensures |r| == |l| && forall i :: 0 <= i < |l| ==> r[i] == l[i].(desc := StripCr(l[i].desc))
    decreases |l|
  {
    if l == [] then [] else [l[0].(desc := StripCr(l[0].desc))] + Stripped(l[1..])
  }

  lemma {:induction false} LoadSaved(l: seq<Meta>)
    requires forall i :: 0 <= i < |l| ==> Clean(l[i])
    ensures Load(Save(l)) == Stripped(l)
    decreases |l|
  {
    if l != [] {
      hide Body, StripCr, ParseLine, IndexOf, Clean;
      ParseBody(l[0]);
      var b, rest := Body(l[0]), Save(l[1..]);
      assert Save(l) == b + ['\n'] + rest;
      IndexAfter(b, '\n', rest);
      SplitAfter(b, '\n', rest);
      assert Lines(Save(l)) == [StripCr(b)] + Lines(rest);
      LoadSaved(l[1..]);
    }
  }

  lemma {:induction false} LinesHaveNoNewline(s: string)
    ensures forall i :: 0 <= i < |Lines(s)| ==> '\n' !in Lines(s)[i]
    decreases |s|
  {
    if s != [] {
      var i := IndexOf(s, '\n');
      if i == |s| {
        assert s[..i] == s;
      } else {
        LinesHaveNoNewline(s[i + 1..]);
      }
    }
  }

  lemma {:induction false} LoadedClean(ls: seq<string>)
    requires forall i :: 0 <= i < |ls| ==> '\n' !in ls[i]
    ensures forall k :: 0 <= k < |LoadLines(ls)| ==> Clean(LoadLines(ls)[k])
    decreases |ls|
  {
    if ls != [] {
      LoadedClean(ls[1..]);
      assert '\n' !in ls[0];
    }
  }

  lemma StripsIff(s: string)
    ensures StripCr(s) != s <==> s != [] && s[|s| - 1] == '\r'
  {
  }

  /** Printing and parsing gives the list back if and only if no timestamp has a bar or a
      newline and no description has a newline or ends in a carriage return. */
  lemma RoundTripIff(l: seq<Meta>)
    ensures Load(Save(l)) == l <==> forall i :: 0 <= i < |l| ==> Kept(l[i])
  {
    hide Lines, LoadLines, Save, Clean, StripCr;
    LinesHaveNoNewline(Save(l));
    LoadedClean(Lines(Save(l)));
    if forall i :: 0 <= i < |l| ==> Clean(l[i]) {
      LoadSaved(l);
      if i :| 0 <= i < |l| && !Kept(l[i]) {
        StripsIff(l[i].desc);
        assert Stripped(l)[i].desc != l[i].desc;
      } else {
        forall i | 0 <= i < |l| ensures Stripped(l)[i] == l[i] {
          assert Kept(l[i]);
          StripsIff(l[i].desc);
        }
      }
    }
  }

  // ----- The daemon's calls -----

  /** The entry `create` appends: the name and, in words, the generation. */
  function Created(id: uint32, timestamp: string, name: string, generation: uint64): Meta {
    Meta(id, timestamp, name + " (gen " + Decimal(generation) + ")")
  }

  /** SnapshotStore::delete keeps the entries with another identifier. */
  function Without(l: seq<Meta>, id: uint32): (r: seq<Meta>)
    ensures forall e :: e in r <==> e in l && e.id != id
    decreases |l|
  {
    if l == [] then [] else (if l[0].id == id then [] else [l[0]]) + Without(l[1..], id)
  }

  /** Deleting keeps the other entries in their order, each as often as it was there. */
  lemma {:induction false} WithoutMeans(l: seq<Meta>, e: Meta, id: uint32)
    ensures Without([], id) == []
    ensures Without(l + [e], id) == Without(l, id) + if e.id == id then [] else [e]
    decreases |l|
  {
    if l == [] {
      assert l + [e] == [e] && [e][1..] == [];
    } else {
      assert (l + [e])[1..] == l[1..] + [e];
      WithoutMeans(l[1..], e, id);
    }
  }

  datatype Request = Create(id: uint32, timestamp: string, name: string, generation: uint64) | Delete(id: uint32)

  /** The file after a request: read, changed and written whole. */
  function Serve(file: string, r: Request): string {
    match r
    case Create(id, timestamp, name, generation) => Save(Load(file) + [Created(id, timestamp, name, generation)])
    case Delete(id) => Save(Without(Load(file), id))
  }

  function ServeAll(file: string, rs: seq<Request>): string
    decreases |rs|
  {
    if rs == [] then file else ServeAll(Serve(file, rs[0]), rs[1..])
  }

  /** The list the requests stand for, with no file in between. */
  function Wanted(l: seq<Meta>, rs: seq<Request>): seq<Meta>
    decreases |rs|
  {
    if rs == [] then l
    else match rs[0]
         case Create(id, timestamp, name, generation) => Wanted(l + [Created(id, timestamp, name, generation)], rs[1..])
         case Delete(id) => Wanted(Without(l, id), rs[1..])
  }

  /** Requests as the daemon makes them: the clock's text has no bar and a name is of one
      line. */
  predicate OneLine(r: Request) {
    r.Create? ==> '|' !in r.timestamp && '\n' !in r.timestamp && '\n' !in r.name
  }

  lemma CreatedKept(id: uint32, timestamp: string, name: string, generation: uint64)
    requires '|' !in timestamp && '\n' !in timestamp && '\n' !in name
    ensures Kept(Created(id, timestamp, name, generation))
  {
  }

  /** Over any run of requests the file stands for the list exactly: nothing is lost or
      altered by being written and read again between two requests. */
  lemma {:induction false} FileStandsForList(l: seq<Meta>, rs: seq<Request>)
    requires forall i :: 0 <= i < |l| ==> Kept(l[i])
    requires forall i :: 0 <= i < |rs| ==> OneLine(rs[i])
    ensures Load(ServeAll(Save(l), rs)) == Wanted(l, rs)
    decreases |rs|
  {
    hide Load, Save, Kept, Created;
    RoundTripIff(l);
    if rs != [] {
      match rs[0]
      case Create(id, timestamp, name, generation) =>
        var e := Created(id, timestamp, name, generation);
        assert OneLine(rs[0]);
        CreatedKept(id, timestamp, name, generation);
        FileStandsForList(l + [e], rs[1..]);
      case Delete(id) =>
        var m := Without(l, id);
        forall i | 0 <= i < |m| ensures Kept(m[i]) {
          assert m[i] in m;
        }
        FileStandsForList(m, rs[1..]);
    }
  }

  // ----- The text itself -----

  predicate Numeral(s: string) {
    s != [] && forall i :: 0 <= i < |s| ==> '0' <= s[i] <= '9'
  }

  /** A numeral read from the left, after a part worth acc. */
  function Worth(s: string, acc: nat): nat
    requires forall i :: 0 <= i < |s| ==> '0' <= s[i] <= '9'
    decreases |s|
  {
    if s == [] then acc else Worth(s[1..], 10 * acc + (s[0] as int - '0' as int))
  }

  lemma {:induction false} WorthSnoc(s: string, c: char, acc: nat)
    requires (forall i :: 0 <= i < |s| ==> '0' <= s[i] <= '9') && '0' <= c <= '9'
    ensures Worth(s + [c], acc) == 10 * Worth(s, acc) + (c as int - '0' as int)
    decreases |s|
  {
    if s == [] {
      assert (s + [c])[1..] == [];
    } else {
      assert (s + [c])[1..] == s[1..] + [c];
      WorthSnoc(s[1..], c, 10 * acc + (s[0] as int - '0' as int));
    }
  }

  /** A number is printed as the one numeral for it without leading zeros. */
  lemma {:induction false} DecimalMeans(n: nat)
    ensures Numeral(Decimal(n)) && Worth(Decimal(n), 0) == n && (Decimal(n)[0] == '0' <==> n == 0)
    decreases n
  {
    if n < 10 {
      assert Decimal(n)[1..] == [];
    } else {
      DecimalMeans(n / 10);
      WorthSnoc(Decimal(n / 10), Digit(n % 10), 0);
      assert Decimal(n)[0] == Decimal(n / 10)[0];
    }
  }

  lemma {:induction false} WorthGrows(s: string, acc: nat)
    requires forall i :: 0 <= i < |s| ==> '0' <= s[i] <= '9'
    ensures Worth(s, acc) >= acc
    decreases |s|
  {
    if s != [] {
      WorthGrows(s[1..], 10 * acc + (s[0] as int - '0' as int));
    }
  }

  lemma {:induction false} ParseDigitsMeans(s: string, acc: nat)
    requires acc < TWO_32
    ensures ParseDigits(s, acc) ==
              if (forall i :: 0 <= i < |s| ==> '0' <= s[i] <= '9') && Worth(s, acc) < 0x1_0000_0000 then Some(Worth(s, acc)) else None
    decreases |s|
  {
    if s != [] {
      if '0' <= s[0] <= '9' {
        var next := 10 * acc + (s[0] as int - '0' as int);
        if next < TWO_32 {
          ParseDigitsMeans(s[1..], next);
          if forall i :: 0 <= i < |s[1..]| ==> '0' <= s[1..][i] <= '9' {
            assert forall i :: 0 <= i < |s| ==> s[i] == if i == 0 then s[0] else s[1..][i - 1];
          } else {
            var i :| 0 <= i < |s[1..]| && !('0' <= s[1..][i] <= '9');
            assert s[i + 1] == s[1..][i];
          }
        } else if forall i :: 0 <= i < |s| ==> '0' <= s[i] <= '9' {
          WorthGrows(s[1..], next);
        }
      }
    }
  }

  /** A line with two bars, the first behind a numeral below 2^32 with or without a plus sign,
      is an entry: the number, what is between the bars, and all that follows the second. */
  lemma ParseLineMeans(number: string, timestamp: string, desc: string)
    requires Numeral(number) && Worth(number, 0) < 0x1_0000_0000 && '|' !in timestamp
    ensures ParseLine(number + "|" + timestamp + "|" + desc) == Some(Meta(Worth(number, 0), timestamp, desc))
    ensures ParseLine("+" + number + "|" + timestamp + "|" + desc) == Some(Meta(Worth(number, 0), timestamp, desc))
  {
    hide IndexOf, Worth, ParseDigits;
    ParseDigitsMeans(number, 0);
    assert '0' <= number[0] <= '9' && '|' !in number && '|' !in "+" + number;
    var rest := timestamp + ['|'] + desc;
    Barred(number, timestamp, desc);
    Barred("+" + number, timestamp, desc);
    assert ("+" + number)[1..] == number;
    assert ParseId(number) == Some(Worth(number, 0)) == ParseId("+" + number);
  }

  lemma Barred(first: string, timestamp: string, desc: string)
    requires '|' !in first && '|' !in timestamp
    ensures var line := first + "|" + timestamp + "|" + desc;
            var i := IndexOf(line, '|');
            && i == |first| < |line| && line[..i] == first
            && var rest := line[i + 1..];
               var j := IndexOf(rest, '|');
               j == |timestamp| < |rest| && rest[..j] == timestamp && rest[j + 1..] == desc
  {
    hide IndexOf;
    var rest := timestamp + ['|'] + desc;
    var line := first + "|" + timestamp + "|" + desc;
    assert line == first + ['|'] + rest;
    IndexAfter(first, '|', rest);
    SplitAfter(first, '|', rest);
    IndexAfter(timestamp, '|', desc);
    SplitAfter(timestamp, '|', desc);
  }

  /** A numeral below 2^32, perhaps behind a plus sign. */
  predicate NumberLike(s: string) {
    || (Numeral(s) && Worth(s, 0) < 0x1_0000_0000)
    || (s != [] && s[0] == '+' && Numeral(s[1..]) && Worth(s[1..], 0) < 0x1_0000_0000)
  }

  /** Any other line is dropped: with fewer than two bars, or with no such numeral first. */
  lemma OtherLines(line: string)
    ensures (forall i, j :: 0 <= i < j < |line| ==> line[i] != '|' || line[j] != '|') ==> ParseLine(line) == None
    ensures forall number: string, rest: string :: line == number + "|" + rest && '|' !in number && !NumberLike(number) ==>
              ParseLine(line) == None
  {
    hide ParseId;
    var i := IndexOf(line, '|');
    if i < |line| {
      var j := IndexOf(line[i + 1..], '|');
      assert j < |line[i + 1..]| ==> line[i + 1 + j] == '|';
    }
    forall number: string, rest: string | line == number + "|" + rest && '|' !in number && !NumberLike(number)
      ensures ParseLine(line) == None
    {
      assert line == number + ['|'] + rest;
      IndexAfter(number, '|', rest);
      SplitAfter(number, '|', rest);
      NoNumber(number);
    }
  }

  lemma NoNumber(s: string)
    requires !NumberLike(s)
    ensures ParseId(s) == None
  {
    ParseDigitsMeans(s, 0);
    if s != [] && s[0] == '+' && |s| > 1 {
      ParseDigitsMeans(s[1..], 0);
    }
  }

  /** The entry a create request adds: its description is the name and, in brackets, "gen" and
      the generation's numeral. */
  lemma CreatedMeans(id: uint32, timestamp: string, name: string, generation: uint64)
    ensures var e := Created(id, timestamp, name, generation);
            && e.id == id && e.timestamp == timestamp
            && exists g: string :: Numeral(g) && Worth(g, 0) == generation && (g[0] == '0' <==> generation == 0)
                 && e.desc == name + " (gen " + g + ")"
  {
    DecimalMeans(generation);
  }

  /** A list is saved as a line for each entry: the number's numeral, the time and the
      description with a bar between them. */
  lemma {:induction false} SavedLines(l: seq<Meta>, e: Meta)
    ensures exists n: string :: Numeral(n) && Worth(n, 0) == e.id && (n[0] == '0' <==> e.id == 0)
              && Save(l + [e]) == Save(l) + (n + "|" + e.timestamp + "|" + e.desc + "\n")
    ensures Save([]) == ""
    decreases |l|
  {
    hide Decimal;
    DecimalMeans(e.id);
    SaveSnoc(l, e);
  }

  lemma {:induction false} SaveSnoc(l: seq<Meta>, e: Meta)
    ensures Save(l + [e]) == Save(l) + (Body(e) + "\n")
    decreases |l|
  {
    hide Body;
    if l == [] {
      assert (l + [e])[1..] == [];
    } else {
      assert (l + [e])[1..] == l[1..] + [e];
      SaveSnoc(l[1..], e);
    }
  }

  /** A file is read line by line; a line ended by a newline loses it and a carriage return
      before it, a last line without one is taken as it is. */
  lemma LinesMeans(line: string, rest: string)
    requires '\n' !in line
    ensures Lines("") == [] && (line != "" ==> Lines(line) == [line])
    ensures line == "" || line[|line| - 1] != '\r' ==> Lines(line + "\n" + rest) == [line] + Lines(rest)
    ensures line != "" && line[|line| - 1] == '\r' ==> Lines(line + "\n" + rest) == [line[..|line| - 1]] + Lines(rest)
  {
    hide IndexOf;
    if line != "" {
      var i := IndexOf(line, '\n');
      assert i == |line|;
    }
    IndexAfter(line, '\n', rest);
    SplitAfter(line, '\n', rest);
    assert line + "\n" + rest == line + ['\n'] + rest;
  }

  lemma LoadStep(ls: seq<string>, i: nat)
    requires i <= |ls|
    ensures i == |ls| ==> LoadLines(ls[i..]) == []
    ensures i < |ls| ==> LoadLines(ls[i..]) == (match ParseLine(ls[i]) case None => [] case Some(e) => [e]) + LoadLines(ls[i + 1..])
  {
    if i < |ls| {
      assert ls[i..][0] == ls[i] && ls[i..][1..] == ls[i + 1..];
    }
  }

  class MetaStore {
    var file: Option<string>

    constructor ()
      ensures file == None
    {
      file := None;
    }

    method LoadMeta() returns (list: seq<Meta>)
      ensures list == if file.None? then [] else Load(file.value)
    {
      hide Lines, ParseLine, LoadLines;
      list := [];
      if file.None? {
        return;
      }
      var lines := Lines(file.value);
      assert lines[0..] == lines;
      for i := 0 to |lines|
        invariant Load(file.value) == list + LoadLines(lines[i..])
      {
        LoadStep(lines, i);
        var entry := ParseLine(lines[i]);
        if entry.Some? {
          list := list + [entry.value];
        }
      }
      LoadStep(lines, |lines|);
    }

    method SaveMeta(list: seq<Meta>)
      modifies this
      ensures file == Some(Save(list))
    {
      hide Body;
      var text := "";
      assert list[0..] == list;
      for i := 0 to |list|
        invariant Save(list) == text + Save(list[i..])
      {
        assert list[i..][0] == list[i] && list[i..][1..] == list[i + 1..];
        assert Save(list[i..]) == Body(list[i]) + "\n" + Save(list[i + 1..]);
        text := text + Body(list[i]) + "\n";
      }
      assert text + Save([]) == text && list[|list|..] == [];
      file := Some(text);
    }
  }
}
