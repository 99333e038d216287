/** What a recording's key and tags say about the meeting, in plain terms: character by character, with the patterns'
    classes and names left out. */
module PlainRecordings {
  import opened Text
  import opened Regex
  import opened Words
  import opened Metadata
  import opened Extraction
  import opened Ingest

  /** Small letters and digits. */
  ghost predicate PlainWord(w: string) {
    w != "" && forall i: nat | i < |w| :: 'a' <= w[i] <= 'z' || '0' <= w[i] <= '9'
  }

  ghost predicate PlainWords(p: seq<string>) { p != [] && forall i: nat | i < |p| :: PlainWord(p[i]) }

  /** `2024-05-31` */
  ghost predicate PlainDate(d: string) {
    |d| == 10 && forall i: nat | i < 10 :: if i == 4 || i == 7 then d[i] == '-' else '0' <= d[i] <= '9'
  }

  ghost predicate PlainExtension(e: string) {
    e != "" && forall i: nat | i < |e| :: 'a' <= e[i] <= 'z' || 'A' <= e[i] <= 'Z' || '0' <= e[i] <= '9'
  }

  ghost predicate Directory(dir: string) { dir == "" || dir[|dir| - 1] == '/' }

  function Hyphened(p: seq<string>): string
    requires p != []
  {
    if |p| == 1 then p[0] else p[0] + "-" + Hyphened(p[1..])
  }

  function Recording(dir: string, date: string, words: seq<string>, people: seq<string>, ext: string): string
    requires words != [] && people != []
  {
    dir + date + "_" + Hyphened(words) + "_" + Hyphened(people) + "." + ext
  }

  /** Hyphens have become blanks, and a small letter at the start of a word its capital. */
  ghost predicate TitleOf(title: string, slug: string) {
    |title| == |slug| && forall i: nat | i < |slug| :: SpokenAt(title, slug, i)
  }

  ghost predicate SpokenAt(title: string, slug: string, i: nat)
    requires i < |slug| == |title|
  {
    if slug[i] == '-' then title[i] == ' '
    else if (i == 0 || slug[i - 1] == '-') && 'a' <= slug[i] <= 'z' then title[i] as int + 32 == slug[i] as int
    else title[i] == slug[i]
  }

  ghost predicate Names(names: seq<string>, people: seq<string>) {
    |names| == |people| && forall i: nat | i < |people| :: TitleOf(names[i], people[i])
  }

  lemma {:induction false} HyphenedIsJoined(p: seq<string>)
    requires p != []
    ensures Hyphened(p) == Join('-', p)
    decreases |p|
  {
    if |p| > 1 { HyphenedIsJoined(p[1..]); }
  }

  lemma WordIsSlug(w: string)
    requires PlainWord(w)
    ensures Slug(w) && '-' !in w && TitleOf(Capitalised(w), w)
  {
    var c := Capitalised(w);
    assert c == [Upper(w[0])] + w[1..];
    forall i: nat | i < |w| ensures SpokenAt(c, w, i) { assert i > 0 ==> c[i] == w[1..][i - 1]; }
  }

  lemma WordsAreSlugs(p: seq<string>)
    requires PlainWords(p)
    ensures SlugWords(p)
  {
    forall i: nat | i < |p| ensures Slug(p[i]) && '-' !in p[i] { WordIsSlug(p[i]); }
  }

  lemma SpokenSame(a: string, s: string, i: nat, x: string, y: string, j: nat)
    requires i < |s| == |a| && j < |y| == |x| && SpokenAt(a, s, i) && x[j] == a[i] && y[j] == s[i]
    requires (i == 0 || s[i - 1] == '-') == (j == 0 || y[j - 1] == '-')
    ensures SpokenAt(x, y, j)
  {
  }

  lemma TitleJoined(a: string, s: string, b: string, t: string)
    requires TitleOf(a, s) && TitleOf(b, t) && '-' !in s
    ensures TitleOf(a + " " + b, s + "-" + t)
  {
    var x, y, n := a + " " + b, s + "-" + t, |s| + 1;
    assert x[|s|] == ' ' && y[|s|] == '-';
    assert SpokenAt(x, y, |s|);
    hide SpokenAt;
    forall i: nat | i < |y| ensures SpokenAt(x, y, i) {
      if i < |s| {
        assert i > 0 ==> y[i - 1] == s[i - 1];
        SpokenSame(a, s, i, x, y, i);
      } else if i >= n {
        assert if i == n then y[i - 1] == '-' else y[i - 1] == t[i - n - 1];
        SpokenSame(b, t, i - n, x, y, i);
      }
    }
  }

  lemma {:induction false} TitleOfWords(p: seq<string>)
    requires PlainWords(p)
    ensures TitleOf(Join(' ', CapitalisedAll(p)), Hyphened(p))
    decreases |p|
  {
    hide TitleOf, Capitalised;
    WordIsSlug(p[0]);
    if |p| > 1 {
      assert forall i: nat | i < |p[1..]| :: p[1..][i] == p[i + 1];
      TitleOfWords(p[1..]);
      assert CapitalisedAll(p)[1..] == CapitalisedAll(p[1..]);
      TitleJoined(Capitalised(p[0]), p[0], Join(' ', CapitalisedAll(p[1..])), Hyphened(p[1..]));
    }
  }

  lemma DateIs(d: string)
    requires PlainDate(d)
    ensures IsDate(d)
  {
    CharAt(d, 4, '-');
    CharAt(d, 7, '-');
  }

  lemma ExtensionIs(e: string)
    requires PlainExtension(e)
    ensures Extension(e)
  {
  }

  lemma KeyIs(dir: string, date: string, title: string, people: string, ext: string)
    ensures dir + (Print(date, title, people) + "." + ext) == dir + date + "_" + title + "_" + people + "." + ext
  {
    Assoc(dir, Print(date, title, people) + ".", ext);
  }

  /** A recording's key gives back its date, its title and its participants, in order. */
  lemma RecordingIsRead(dir: string, date: string, words: seq<string>, people: seq<string>, ext: string)
    requires Directory(dir) && PlainDate(date) && PlainWords(words) && PlainWords(people) && PlainExtension(ext)
    ensures var m := Extract(Recording(dir, date, words, people, ext));
      m.date == Some(date) && TitleOf(m.title, Hyphened(words)) && Names(m.participants, people)
  {
    hide Extract, TitleOf, Capitalised;
    DateIs(date);
    ExtensionIs(ext);
    WordsAreSlugs(words);
    WordsAreSlugs(people);
    PrintedKeyReadsBack(dir, date, words, people, ext);
    HyphenedIsJoined(words);
    HyphenedIsJoined(people);
    KeyIs(dir, date, Hyphened(words), Hyphened(people), ext);
    TitleOfWords(words);
    forall i: nat | i < |people| ensures TitleOf(Capitalised(people[i]), people[i]) { WordIsSlug(people[i]); }
  }

  // ---------------------------------------------------------------------------------------------
  // Other names.
  // ---------------------------------------------------------------------------------------------

  /** Blanks, hyphens and underscores. */
  ghost predicate Filling(s: string) { forall i: nat | i < |s| :: s[i] == ' ' || s[i] == '-' || s[i] == '_' }

  /** Neither the first nor the last character is one of those. */
  ghost predicate Solid(s: string) { s != "" && !Filling(s[..1]) && !Filling(s[|s| - 1..]) }

  ghost predicate Printable(s: string) {
    forall i: nat | i < |s| :: 32 <= s[i] as int < 127 && s[i] != '.' && s[i] != '/'
  }

  ghost predicate Unfilled(title: string, s: string) {
    |title| == |s| && forall i: nat | i < |s| :: title[i] == if s[i] == '-' || s[i] == '_' then ' ' else s[i]
  }

  lemma {:induction false} BlankedIs(s: string)
    ensures Unfilled(Blanked(s), s)
    decreases |s|
  {
    if s != "" {
      BlankedIs(s[1..]);
      var t := Blanked(s);
      assert forall i: nat | 0 < i < |s| :: t[i] == Blanked(s[1..])[i - 1] && s[i] == s[1..][i - 1];
    }
  }

  lemma {:induction false} BlanksAtLeft(s: string, x: string)
    requires All(Only(' '), s) && (x == "" || !IsSpace(x[0]))
    ensures StripLeft(s + x) == x
    decreases |s|
  {
    if s == "" {
      assert s + x == x;
    } else {
      assert (s + x)[1..] == s[1..] + x && In(Only(' '), s[0]);
      BlanksAtLeft(s[1..], x);
    }
  }

  lemma {:induction false} BlanksAtRight(x: string, s: string)
    requires All(Only(' '), s) && (x == "" || !IsSpace(x[|x| - 1]))
    ensures StripRight(x + s) == x
    decreases |s|
  {
    if s == "" {
      assert x + s == x;
    } else {
      var n := |s| - 1;
      assert (x + s)[..|x + s| - 1] == x + s[..n] && In(Only(' '), s[n]);
      BlanksAtRight(x, s[..n]);
    }
  }

  lemma {:induction false} BlankedConcat(a: string, b: string)
    ensures Blanked(a + b) == Blanked(a) + Blanked(b)
    decreases |a|
  {
    if a == "" {
      assert a + b == b;
    } else {
      assert (a + b)[1..] == a[1..] + b;
      BlankedConcat(a[1..], b);
    }
  }

  lemma FillingBlanked(s: string)
    requires Filling(s)
    ensures All(Only(' '), Blanked(s))
  {
    BlankedIs(s);
  }

  lemma SolidBlanked(s: string)
    requires Solid(s) && Printable(s)
    ensures var b := Blanked(s); b != "" && !IsSpace(b[0]) && !IsSpace(b[|b| - 1])
  {
    BlankedIs(s);
    assert s[..1][0] == s[0] && s[|s| - 1..][0] == s[|s| - 1];
  }

  /** What stripping a name with filling at both ends leaves. */
  lemma StrippedBetween(left: string, core: string, right: string)
    requires Filling(left) && Filling(right) && (core == "" || (Solid(core) && Printable(core)))
    ensures Unfilled(Stripped(Blanked(left + core + right)), core)
  {
    BlankedIs(core);
    BlankedConcat(left + core, right);
    BlankedConcat(left, core);
    FillingBlanked(left);
    FillingBlanked(right);
    if core != "" { SolidBlanked(core); }
    hide Filling, Solid, Printable, Unfilled, IsSpace, StripLeft, StripRight;
    var l, c, r := Blanked(left), Blanked(core), Blanked(right);
    Assoc(l, c, r);
    if core == "" {
      assert l + c + r == (l + r) + "" && "" + "" == "";
      BlanksAtLeft(l + r, "");
      BlanksAtRight("", "");
    } else {
      BlanksAtLeft(l, c + r);
      BlanksAtRight(c, r);
    }
  }

  lemma NotAName(t: string)
    requires t == "" || !IsDigit(t[0])
    ensures !IsName(t)
  {
  }

  lemma OtherNameIs(dir: string, name: string, ext: string)
    requires Directory(dir) && PlainExtension(ext) && Printable(name)
    ensures WithoutExtension(FileName(dir + name + "." + ext)) == name
  {
    ExtensionIs(ext);
    Assoc(dir, name + ".", ext);
    Assoc(dir, name, ".");
    LastPiece('/', dir, name + "." + ext);
    ExtensionDropped(name, ext, 0);
    assert name[0..] == name;
  }

  /** The name of any other file that does not start with a digit is its title, with blanks for hyphens and
      underscores and none at the ends; a name of nothing else is called a meeting recording. */
  lemma OtherNameIsTheTitle(dir: string, left: string, core: string, right: string, ext: string)
    requires Directory(dir) && PlainExtension(ext) && Filling(left) && Filling(right) && Printable(core)
    requires core == "" || (Solid(core) && !('0' <= core[0] <= '9'))
    ensures var m := Extract(dir + (left + core + right) + "." + ext);
      m.date == None && m.participants == []
      && if core == "" then m.title == "Meeting recording" else Unfilled(m.title, core)
  {
    hide Blanked, Stripped;
    var name := left + core + right;
    assert Printable(name) && (name == "" || !IsDigit(name[0]));
    NotAName(name);
    NameMatches(name);
    OtherNameIs(dir, name, ext);
    StrippedBetween(left, core, right);
  }

  // ---------------------------------------------------------------------------------------------
  // Tags.
  // ---------------------------------------------------------------------------------------------

  /** Names between commas, without commas of their own and without blanks at their ends. */
  ghost predicate ListedName(n: string) {
    n != "" && ',' !in n && 32 < n[0] as int < 127 && 32 < n[|n| - 1] as int < 127
  }

  function Listed(names: seq<string>): string
    requires names != []
  {
    if |names| == 1 then names[0] else names[0] + ", " + Listed(names[1..])
  }

  /** Each tag replaces its own part of the meeting and no other; other tags and missing ones change nothing. */
  lemma TagsReplace(base: Meeting, tags: map<string, string>, v: string, k: string, names: seq<string>)
    requires k != "meeting-title" && k != "meeting-date" && k != "meeting-participants"
    requires names != [] && forall n | n in names :: ListedName(n)
    ensures MergeTags(base, map[]) == base
    ensures MergeTags(base, tags["meeting-title" := v]) == MergeTags(base, tags).(title := v)
    ensures MergeTags(base, tags["meeting-date" := v]) == MergeTags(base, tags).(date := Some(v))
    ensures MergeTags(base, tags["meeting-participants" := Listed(names)])
         == MergeTags(base, tags).(participants := names)
    ensures MergeTags(base, tags[k := v]) == MergeTags(base, tags)
  {
    hide Split, StrippedAll, Listed, ListedName;
    ListedIsRead("", names);
    assert "" + Listed(names) == Listed(names);
  }

  lemma {:induction false} ListedIsRead(pad: string, names: seq<string>)
    requires names != [] && (forall n | n in names :: ListedName(n)) && (pad == "" || pad == " ")
    ensures StrippedAll(Split(',', pad + Listed(names))) == names
    decreases |names|
  {
    hide Split, Stripped;
    var n := names[0];
    assert n in names;
    assert ',' !in pad + n;
    NameStripped(pad, n);
    if |names| == 1 {
      SplitOfWord(',', pad + n);
      assert names == [n];
    } else {
      assert forall m | m in names[1..] :: m in names;
      ListedIsRead(" ", names[1..]);
      SplitAtWord(',', pad + n, " " + Listed(names[1..]));
      assert pad + (n + ", " + Listed(names[1..])) == pad + n + "," + (" " + Listed(names[1..]));
      assert names == [n] + names[1..];
      var q := Split(',', " " + Listed(names[1..]));
      assert ([pad + n] + q)[1..] == q;
    }
  }

  lemma NameStripped(pad: string, n: string)
    requires ListedName(n) && (pad == "" || pad == " ")
    ensures Stripped(pad + n) == n
  {
    BlanksAtLeft(pad, n);
    BlanksAtRight(n, "");
    assert n + "" == n;
  }

  /** PeerTube is given the meeting that the key describes, with the title that the tags give if they can be read
      and do, and the recording's own bytes; what it answers is what is reported. */
  lemma RecordingIsUploaded(dir: string, date: string, words: seq<string>, people: seq<string>, ext: string,
                            size: nat, modified: real, s: Services, title: string, error: string)
    requires Directory(dir) && PlainDate(date) && PlainWords(words) && PlainWords(people) && PlainExtension(ext)
    ensures var c := Candidate(Recording(dir, date, words, people, ext), size, modified);
      exists m: Meeting ::
        && m.date == Some(date) && TitleOf(m.title, Hyphened(words)) && Names(m.participants, people)
        && Reported(IngestObject(c, s.(tags := Err(error))), c.key, s, m)
        && Reported(IngestObject(c, s.(tags := Ok(map[]))), c.key, s, m)
        && Reported(IngestObject(c, s.(tags := Ok(map["meeting-title" := title]))), c.key, s, m.(title := title))
  {
    RecordingIsRead(dir, date, words, people, ext);
    hide *;
    var key := Recording(dir, date, words, people, ext);
    var c, m := Candidate(key, size, modified), Extract(key);
    NoTags(m, title);
    Reports(c, s, map[], error);
    Reports(c, s, map["meeting-title" := title], error);
  }

  lemma NoTags(m: Meeting, title: string)
    ensures MergeTags(m, map[]) == m && MergeTags(m, map["meeting-title" := title]) == m.(title := title)
  {
  }

  /** `r` says what became of the recording `key` when it was uploaded as the meeting `m`. */
  ghost predicate Reported(r: IngestResult, key: string, s: Services, m: Meeting) {
    match s.stream
    case Err(e) => r == NotUploaded(key, e)
    case Ok(bytes) =>
      (s.upload(m, bytes).Ok? ==> r == Uploaded(key, s.upload(m, bytes).value))
      && (s.upload(m, bytes).Err? ==> r == NotUploaded(key, s.upload(m, bytes).error))
  }

  lemma Reports(c: Candidate, s: Services, tags: map<string, string>, error: string)
    ensures Reported(IngestObject(c, s.(tags := Ok(tags))), c.key, s, MergeTags(Extract(c.key), tags))
    ensures Reported(IngestObject(c, s.(tags := Err(error))), c.key, s, MergeTags(Extract(c.key), map[]))
  {
    hide Extract, MergeTags;
  }
}
