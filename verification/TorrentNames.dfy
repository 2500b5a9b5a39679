/** What fetch_torrents.py reads out of a torrent name: distribution, image type and version. */
module TorrentNames {
  import opened Optional
  import opened Decimal
  import opened Strings

  datatype Distro = Ubuntu | Debian | Kali | Arch | Mint | Fedora

  type Version = seq<nat>

  /** What two names must share to count as versions of one image. */
  datatype Group = Group(distro: Distro, kind: string)

  datatype Parsed = Parsed(group: Group, version: Version)

  // ---------------------------------------------------------------------------
  // Splitting and joining
  // ---------------------------------------------------------------------------

  /** `text.split(sep)`. */
  function Split(text: string, sep: char): (parts: seq<string>)
    ensures parts != []
    ensures forall p :: p in parts ==> sep !in p
    ensures sep !in text ==> parts == [text]
  {
    if text == [] then [[]]
    else
      var rest := Split(text[1..], sep);
      assert rest[0] in rest && forall p :: p in rest[1..] ==> p in rest;
      assert text == [text[0]] + text[1..];
      if text[0] == sep then [[]] + rest else [[text[0]] + rest[0]] + rest[1..]
  }

  /** `sep.join(parts)`. */
  function Join(parts: seq<string>, sep: char): string {
    if parts == [] then [] else if |parts| == 1 then parts[0] else parts[0] + [sep] + Join(parts[1..], sep)
  }

  lemma JoinPrepend(c: char, parts: seq<string>, sep: char)
    requires parts != []
    ensures Join([[c] + parts[0]] + parts[1..], sep) == [c] + Join(parts, sep)
  {
    var longer := [[c] + parts[0]] + parts[1..];
    assert longer[1..] == parts[1..];
    if |parts| > 1 {
      assert [c] + parts[0] + [sep] + Join(parts[1..], sep) == [c] + (parts[0] + [sep] + Join(parts[1..], sep));
    }
  }

  lemma {:induction false} JoinSplit(text: string, sep: char)
    ensures Join(Split(text, sep), sep) == text
  {
    if text != [] {
      var rest := Split(text[1..], sep);
      JoinSplit(text[1..], sep);
      assert text == [text[0]] + text[1..];
      if text[0] == sep {
        assert ([[]] + rest)[1..] == rest;
      } else {
        JoinPrepend(text[0], rest, sep);
      }
    }
  }

  lemma {:induction false} SplitJoin(parts: seq<string>, sep: char)
    requires parts != [] && forall p :: p in parts ==> sep !in p
    ensures Split(Join(parts, sep), sep) == parts
  {
    if |parts| > 1 {
      var tail := Join(parts[1..], sep);
      assert Join(parts, sep) == parts[0] + ([sep] + tail);
      hide *;
      SplitJoin(parts[1..], sep);
      SplitPrefix(parts[0], tail, sep);
      assert parts == [parts[0]] + parts[1..];
    }
  }

  lemma {:induction false} SplitPrefix(head: string, tail: string, sep: char)
    requires sep !in head
    ensures Split(head + ([sep] + tail), sep) == [head] + Split(tail, sep)
  {
    var text := head + ([sep] + tail);
    if head == [] {
      assert text == [sep] + tail && text[1..] == tail;
    } else {
      assert text[1..] == head[1..] + ([sep] + tail);
      SplitPrefix(head[1..], tail, sep);
      assert [head[0]] + head[1..] == head;
    }
  }

  // ---------------------------------------------------------------------------
  // Versions
  // ---------------------------------------------------------------------------

  function DigitOf(c: char): digit
    requires IsDigit(c)
  {
    DigitValue(c)
  }

  /** Digits with single underscores between them, as `int()` reads them. */
  function DigitRun(s: string): Option<seq<digit>>
    decreases |s|
  {
    if s == [] || !IsDigit(s[0]) then None
    else if |s| == 1 then Some([DigitOf(s[0])])
    else
      match DigitRun(if s[1] == '_' then s[2..] else s[1..])
      case None => None
      case Some(ds) => Some([DigitOf(s[0])] + ds)
  }

  /** `int(s)` for text without a minus sign, which a part of a name split at "-" never has. */
  function ParseInt(s: string): Option<nat> {
    var text := Strip(s);
    match DigitRun(if text != [] && text[0] == '+' then text[1..] else text)
    case None => None
    case Some(ds) => Some(ValueOf(ds))
  }

  function ParseInts(parts: seq<string>): Option<Version> {
    if parts == [] then Some([])
    else
      var first, rest := ParseInt(parts[0]), ParseInts(parts[1..]);
      if first.Some? && rest.Some? then Some([first.value] + rest.value) else None
  }

  /** `version_to_tuple`; None stands for the ValueError. */
  function VersionTuple(text: string): Option<Version> {
    ParseInts(Split(text, '.'))
  }

  // ---------------------------------------------------------------------------
  // Names
  // ---------------------------------------------------------------------------

  /** `get_distro`: the prefix patterns, of which at most one matches. */
  function DistroOf(name: string): Option<Distro> {
    if "ubuntu-" <= name || "lubuntu-" <= name || "xubuntu-" <= name then Some(Ubuntu)
    else if "debian-" <= name then Some(Debian)
    else if "kali-linux-" <= name then Some(Kali)
    else if "archlinux-" <= name then Some(Arch)
    else if "linuxmint-" <= name then Some(Mint)
    else if "Fedora-Workstation-Live-" <= name then Some(Fedora)
    else None
  }

  predicate IsDevuan(name: string) { "devuan_" <= name }

  datatype VersionText = VersionText(version: string, kind: string)

  /** `parse_version_type`; None stands for the IndexError on too few parts. */
  function ParseVersionType(name: string, distro: Distro): Option<VersionText> {
    var parts := Split(name, '-');
    match distro
    case Ubuntu =>
      if |parts| < 2 then None else Some(VersionText(parts[1], parts[0] + "-" + Join(parts[2..], '-')))
    case Debian =>
      if |parts| < 3 then None else Some(VersionText(parts[1], parts[2] + "-" + Join(parts[3..], '-')))
    case Kali =>
      if |parts| < 3 then None else Some(VersionText(parts[2], Join(parts[3..], '-')))
    case Arch =>
      if |parts| < 2 then None else Some(VersionText(parts[1], ""))
    case Mint =>
      if |parts| < 2 then None else Some(VersionText(parts[1], Join(parts[2..], '-')))
    case Fedora =>
      if |parts| < 2 then None else Some(VersionText(parts[|parts| - 1], parts[|parts| - 2]))
  }

  /** Group and version of a name; None when it belongs to no versioned distribution or does not parse. */
  function Parse(name: string): Option<Parsed> {
    match DistroOf(name)
    case None => None
    case Some(distro) =>
      match ParseVersionType(name, distro)
      case None => None
      case Some(vt) =>
        match VersionTuple(vt.version)
        case None => None
        case Some(version) => Some(Parsed(Group(distro, vt.kind), version))
  }

  // ---------------------------------------------------------------------------
  // When version text and type determine the name
  // ---------------------------------------------------------------------------

  lemma {:induction false} HeadPart(text: string, word: string, sep: char)
    requires sep !in word && word + [sep] <= text
    ensures Split(text, sep)[0] == word && |Split(text, sep)| >= 2
  {
    var tail := text[|word| + 1..];
    assert text == word + ([sep] + tail);
    SplitPrefix(word, tail, sep);
  }

  /** The parts of the name that carry neither version nor type. */
  function FixedParts(distro: Distro): nat {
    match distro
    case Ubuntu => 2
    case Debian => 3
    case Kali => 3
    case Arch => 2
    case Mint => 2
    case Fedora => 2
  }

  function SuffixParts(name: string, distro: Distro): seq<string> {
    var parts := Split(name, '-');
    if |parts| < FixedParts(distro) then [] else parts[FixedParts(distro)..]
  }

  lemma KaliHead(name: string)
    requires "kali-linux-" <= name
    ensures var parts := Split(name, '-'); |parts| >= 3 && parts[0] == "kali" && parts[1] == "linux"
  {
    var tail := name[5..];
    assert name == "kali" + ("-" + tail) && "linux-" <= tail;
    SplitPrefix("kali", tail, '-');
    HeadPart(tail, "linux", '-');
  }

  lemma {:induction false} EmptyJoin(parts: seq<string>)
    requires Join(parts, '-') != ""
    ensures parts != []
  {
  }

  lemma SameSuffix(a: seq<string>, b: seq<string>)
    requires forall p :: p in a ==> '-' !in p
    requires forall p :: p in b ==> '-' !in p
    requires Join(a, '-') == Join(b, '-') != ""
    ensures a == b
  {
    EmptyJoin(a);
    EmptyJoin(b);
    SplitJoin(a, '-');
    SplitJoin(b, '-');
  }

  /** Where one word and the rest meet at a dash, the whole text determines both. */
  lemma SameWordAndRest(w: string, rest: string, w': string, rest': string)
    requires '-' !in w && '-' !in w' && w + "-" + rest == w' + "-" + rest'
    ensures w == w' && rest == rest'
  {
    assert w + "-" + rest == w + (['-'] + rest) && w' + "-" + rest' == w' + (['-'] + rest');
    SplitPrefix(w, rest, '-');
    SplitPrefix(w', rest', '-');
    JoinSplit(rest, '-');
    JoinSplit(rest', '-');
    assert Split(rest, '-') == Split(w + "-" + rest, '-')[1..] == Split(rest', '-');
  }

  ghost predicate HasSuffix(name: string, distro: Distro) {
    Join(SuffixParts(name, distro), '-') != ""
  }

  lemma SameFixedParts(a: string, b: string, distro: Distro)
    requires distro.Ubuntu? || distro.Debian? || distro.Kali? || distro.Mint?
    requires DistroOf(a) == DistroOf(b) == Some(distro)
    requires ParseVersionType(a, distro).Some? && ParseVersionType(a, distro) == ParseVersionType(b, distro)
    ensures var n := FixedParts(distro);
            var p, q := Split(a, '-'), Split(b, '-');
            && n <= |p| && n <= |q| && p[..n] == q[..n] && Join(p[n..], '-') == Join(q[n..], '-')
  {
    var p, q := Split(a, '-'), Split(b, '-');
    hide Split, Join;
    match distro
    case Ubuntu => SameWordAndRest(p[0], Join(p[2..], '-'), q[0], Join(q[2..], '-'));
    case Debian =>
      HeadPart(a, "debian", '-');
      HeadPart(b, "debian", '-');
      SameWordAndRest(p[2], Join(p[3..], '-'), q[2], Join(q[3..], '-'));
    case Kali =>
      KaliHead(a);
      KaliHead(b);
    case Mint =>
      HeadPart(a, "linuxmint", '-');
      HeadPart(b, "linuxmint", '-');
  }

  /** For Ubuntu, Debian, Kali and Mint names with a non-empty suffix, version text and type
      determine the name, so only equal numbers in different spelling can collide. */
  lemma {:induction false} VersionTextAndTypeDetermineTheName(a: string, b: string, distro: Distro)
    requires distro.Ubuntu? || distro.Debian? || distro.Kali? || distro.Mint?
    requires DistroOf(a) == DistroOf(b) == Some(distro)
    requires ParseVersionType(a, distro).Some? && ParseVersionType(a, distro) == ParseVersionType(b, distro)
    requires HasSuffix(a, distro) && HasSuffix(b, distro)
    ensures a == b
  {
    SameFixedParts(a, b, distro);
    hide Split, Join, DistroOf, ParseVersionType;
    var n := FixedParts(distro);
    var p, q := Split(a, '-'), Split(b, '-');
    SameSuffix(p[n..], q[n..]);
    assert p == p[..n] + p[n..] && q == q[..n] + q[n..];
    JoinSplit(a, '-');
    JoinSplit(b, '-');
  }

  function KaliName(major: string, minor: string): string {
    "kali-linux-" + (major + "." + minor) + "-x"
  }

  /** Two names of one image can still share a version tuple: "24.04" and "24.4" read the same. */
  lemma {:induction false} TwinNames()
    ensures KaliName("24", "04") != KaliName("24", "4")
    ensures Parse(KaliName("24", "04")) == Parse(KaliName("24", "4")) == Some(Parsed(Group(Kali, "x"), [24, 4]))
  {
    assert |KaliName("24", "04")| != |KaliName("24", "4")|;
    OneDigit("4");
    TwoDigits("24");
    TwoDigits("04");
    hide Parse, ParseInt, KaliName;
    KaliParse("24", "04", 24, 4);
    KaliParse("24", "4", 24, 4);
  }

  lemma KaliParse(major: string, minor: string, m: nat, n: nat)
    requires '-' !in major && '-' !in minor && '.' !in major && '.' !in minor
    requires ParseInt(major) == Some(m) && ParseInt(minor) == Some(n)
    ensures Parse(KaliName(major, minor)) == Some(Parsed(Group(Kali, "x"), [m, n]))
  {
    var text := major + "." + minor;
    KaliParts(text, KaliName(major, minor));
    KaliDistro(KaliName(major, minor));
    assert text == major + ("." + minor);
    SplitPrefix(major, minor, '.');
    assert Split(text, '.') == [major, minor];
    hide Split, ParseInt, ParseInts, ParseVersionType, DistroOf, KaliName;
    ParseTwo(major, minor, m, n);
  }

  lemma ParseTwo(major: string, minor: string, m: nat, n: nat)
    requires ParseInt(major) == Some(m) && ParseInt(minor) == Some(n)
    ensures ParseInts([major, minor]) == Some([m, n])
  {
    hide ParseInt;
    var none: Version := [];
    assert [major, minor][1..] == [minor] && [minor][1..] == [];
    assert ParseInts([]) == Some(none);
    assert [n] + none == [n];
    assert ParseInts([minor]) == Some([n]);
    assert [m] + [n] == [m, n];
  }

  lemma KaliDistro(name: string)
    requires "kali-linux-" <= name
    ensures DistroOf(name) == Some(Kali)
  {
    assert name[0] == 'k';
  }

  lemma OneDigit(s: string)
    requires |s| == 1 && IsDigit(s[0])
    ensures ParseInt(s) == Some(DigitOf(s[0]))
  {
    var d: digit := DigitOf(s[0]);
    assert [d][..0] == [] && ValueOf([d]) == d;
  }

  lemma TwoDigits(s: string)
    requires |s| == 2 && IsDigit(s[0]) && IsDigit(s[1])
    ensures ParseInt(s) == Some(10 * DigitOf(s[0]) + DigitOf(s[1]))
  {
    var a: digit, b: digit := DigitOf(s[0]), DigitOf(s[1]);
    assert s[1..] == [s[1]];
    assert DigitRun(s[1..]) == Some([b]);
    assert [a] + [b] == [a, b];
    assert DigitRun(s) == Some([a, b]);
    assert [a, b][..1] == [a] && [a][..0] == [];
    assert ValueOf([a]) == a && ValueOf([a, b]) == 10 * a + b;
  }

  lemma KaliParts(version: string, name: string)
    requires '-' !in version && name == "kali-linux-" + version + "-x"
    ensures ParseVersionType(name, Kali) == Some(VersionText(version, "x"))
  {
    var parts := ["kali", "linux", version, "x"];
    assert parts[3..] == ["x"] && parts[2..] == [version, "x"] && parts[1..] == ["linux", version, "x"];
    assert [version, "x"][1..] == ["x"] && ["linux", version, "x"][1..] == [version, "x"];
    assert Join(["x"], '-') == "x";
    assert Join([version, "x"], '-') == version + "-x";
    assert Join(["linux", version, "x"], '-') == "linux-" + version + "-x";
    assert Join(parts, '-') == name;
    SplitJoin(parts, '-');
  }

  // ---------------------------------------------------------------------------
  // Every version has a next one
  // ---------------------------------------------------------------------------

  lemma {:induction false} ParseIntsSnoc(parts: seq<string>, last: string, version: Version, n: nat)
    requires ParseInts(parts) == Some(version) && ParseInt(last) == Some(n)
    ensures ParseInts(parts + [last]) == Some(version + [n])
  {
    hide ParseInt;
    var none: Version := [];
    if parts == [] {
      assert parts + [last] == [last] && [last][1..] == [];
      assert ParseInts([]) == Some(none) && [n] + none == version + [n];
    } else {
      assert (parts + [last])[1..] == parts[1..] + [last];
      var rest := ParseInts(parts[1..]).value;
      ParseIntsSnoc(parts[1..], last, rest, n);
      assert version == [version[0]] + rest;
      assert [version[0]] + (rest + [n]) == version + [n];
    }
  }

  lemma {:induction false} SplitSnoc(text: string, tail: string, sep: char)
    requires sep !in tail
    ensures Split(text + ([sep] + tail), sep) == Split(text, sep) + [tail]
  {
    if text == "" {
      SplitPrefix("", tail, sep);
      assert text + ([sep] + tail) == "" + ([sep] + tail);
    } else {
      var longer := text + ([sep] + tail);
      assert longer[1..] == text[1..] + ([sep] + tail) && longer[0] == text[0];
      SplitSnoc(text[1..], tail, sep);
    }
  }

  lemma NextVersion(text: string, version: Version)
    requires VersionTuple(text) == Some(version)
    ensures VersionTuple(text + ".0") == Some(version + [0])
  {
    assert text + ".0" == text + (['.'] + "0");
    SplitSnoc(text, "0", '.');
    OneDigit("0");
    ParseIntsSnoc(Split(text, '.'), "0", version, 0);
  }

  /** Where the version stands among the parts of a name. */
  function VersionPart(distro: Distro, parts: seq<string>): int {
    match distro
    case Kali => 2
    case Fedora => |parts| - 1
    case _ => 1
  }

  lemma {:induction false} JoinAtPart(parts: seq<string>, k: nat, sep: char)
    requires 0 < k < |parts|
    ensures Join(parts, sep) == Join(parts[..k], sep) + [sep] + Join(parts[k..], sep)
  {
    if k == 1 {
      assert parts[..1] == [parts[0]];
    } else {
      JoinAtPart(parts[1..], k - 1, sep);
      assert parts[1..][..k - 1] == parts[..k][1..] && parts[1..][k - 1..] == parts[k..];
      var front, back := Join(parts[..k][1..], sep), Join(parts[k..], sep);
      assert Join(parts[..k], sep) == parts[0] + [sep] + front;
      assert parts[0] + [sep] + (front + [sep] + back) == parts[0] + [sep] + front + [sep] + back;
    }
  }

  /** Two names with the same parts up to `k` start with the same text. */
  lemma SameStart(a: seq<string>, b: seq<string>, k: nat, word: string)
    requires 0 < k < |a| && k < |b| && a[..k] == b[..k] && word == Join(a[..k], '-') + "-"
    ensures word <= Join(b, '-')
  {
    JoinAtPart(b, k, '-');
    assert Join(b, '-') == word + Join(b[k..], '-');
  }

  lemma {:induction false} JoinLonger(parts: seq<string>, tail: string, sep: char)
    requires parts != []
    ensures Join(parts[..|parts| - 1] + [parts[|parts| - 1] + tail], sep) == Join(parts, sep) + tail
  {
    var longer := parts[..|parts| - 1] + [parts[|parts| - 1] + tail];
    if |parts| > 1 {
      JoinLonger(parts[1..], tail, sep);
      assert longer[1..] == parts[1..][..|parts[1..]| - 1] + [parts[1..][|parts[1..]| - 1] + tail];
      var rest := Join(parts[1..], sep);
      assert parts[0] + [sep] + (rest + tail) == parts[0] + [sep] + rest + tail;
    }
  }

  lemma FirstPart(name: string, next: string, word: string)
    requires |word| > 1 && '-' !in word && word + "-" <= name
    requires |Split(name, '-')| > 1 && |Split(next, '-')| > 1 && Split(name, '-')[..1] == Split(next, '-')[..1]
    ensures word + "-" <= next && next[0] == word[0] && next[1] == word[1]
  {
    HeadPart(name, word, '-');
    var p, q := Split(name, '-'), Split(next, '-');
    assert p[..1] == [word] && Join([word], '-') == word;
    JoinSplit(next, '-');
    SameStart(p, q, 1, word + "-");
  }

  lemma KaliStart(name: string, next: string)
    requires "kali-linux-" <= name
    requires |Split(name, '-')| > 2 && |Split(next, '-')| > 2 && Split(name, '-')[..2] == Split(next, '-')[..2]
    ensures "kali-linux-" <= next
  {
    KaliHead(name);
    var p, q := Split(name, '-'), Split(next, '-');
    assert p[..2] == ["kali", "linux"] && ["kali", "linux"][1..] == ["linux"];
    assert Join(["linux"], '-') == "linux" && Join(["kali", "linux"], '-') == "kali-linux";
    JoinSplit(next, '-');
    SameStart(p, q, 2, "kali-linux-");
  }

  lemma SameDistro(name: string, next: string, distro: Distro)
    requires DistroOf(name) == Some(distro) && |Split(next, '-')| == |Split(name, '-')|
    requires var k := VersionPart(distro, Split(name, '-'));
             0 < k < |Split(name, '-')| && Split(next, '-')[..k] == Split(name, '-')[..k]
    requires distro.Fedora? ==> name <= next
    ensures DistroOf(next) == Some(distro)
  {
    hide Split, Join, DistroOf;
    match distro
    case Kali =>
      KaliStartsSo(name);
      KaliStart(name, next);
      KaliDistro(next);
    case Fedora => FedoraStays(name, next);
    case _ =>
      var word := StartWord(name, distro);
      FirstPart(name, next, word);
      WordDistro(next, word, distro);
  }

  /** The words the names of a distribution start with. */
  predicate StartsWithWord(word: string, distro: Distro) {
    match distro
    case Ubuntu => word == "ubuntu" || word == "lubuntu" || word == "xubuntu"
    case Debian => word == "debian"
    case Arch => word == "archlinux"
    case Mint => word == "linuxmint"
    case _ => false
  }

  lemma StartWord(name: string, distro: Distro) returns (word: string)
    requires DistroOf(name) == Some(distro) && !distro.Kali? && !distro.Fedora?
    ensures StartsWithWord(word, distro) && |word| > 1 && '-' !in word && word + "-" <= name
  {
    word := match distro
      case Ubuntu => if "ubuntu-" <= name then "ubuntu" else if "lubuntu-" <= name then "lubuntu" else "xubuntu"
      case Debian => "debian"
      case Arch => "archlinux"
      case _ => "linuxmint";
  }

  lemma WordDistro(name: string, word: string, distro: Distro)
    requires StartsWithWord(word, distro) && word + "-" <= name
    ensures DistroOf(name) == Some(distro)
  {
    assert name[0] == (word + "-")[0] && name[1] == (word + "-")[1];
  }

  lemma KaliStartsSo(name: string)
    requires DistroOf(name) == Some(Kali)
    ensures "kali-linux-" <= name
  {
  }

  lemma FedoraStays(name: string, next: string)
    requires DistroOf(name) == Some(Fedora) && name <= next
    ensures DistroOf(next) == Some(Fedora)
  {
    assert next[0] == name[0] == 'F';
  }

  /** For every name that reads as a version some name of the same image reads as the very next one:
      the name with ".0" behind its version. */
  lemma {:induction false} NextName(name: string, at: Parsed) returns (next: string)
    requires Parse(name) == Some(at)
    ensures Parse(next) == Some(Parsed(at.group, at.version + [0]))
  {
    var distro, parts := DistroOf(name).value, Split(name, '-');
    var text := ParseVersionType(name, distro).value;
    var k := VersionPart(distro, parts);
    assert 0 < k < |parts| && text.version == parts[k] && VersionTuple(parts[k]) == Some(at.version);
    assert k == (if distro.Fedora? then |parts| - 1 else k) && at.group == Group(distro, text.kind);
    var longer := parts[..k] + [parts[k] + ".0"] + parts[k + 1..];
    next := Join(longer, '-');
    NextParts(parts, k, longer);
    NextStart(name, distro, k, longer);
    assert Split(next, '-') == longer by { SplitJoin(longer, '-'); }
    NextVersion(parts[k], at.version);
    SameDistro(name, next, distro);
    SameKind(name, next, distro, k);
    hide Split, Join, VersionTuple, DistroOf, ParseVersionType;
  }

  lemma NextStart(name: string, distro: Distro, k: nat, longer: seq<string>)
    requires k == VersionPart(distro, Split(name, '-')) && k < |Split(name, '-')|
    requires longer == Split(name, '-')[..k] + [Split(name, '-')[k] + ".0"] + Split(name, '-')[k + 1..]
    ensures distro.Fedora? ==> name <= Join(longer, '-')
  {
    hide Split, Join;
    if distro.Fedora? {
      var parts := Split(name, '-');
      JoinLonger(parts, ".0", '-');
      JoinSplit(name, '-');
      assert longer == parts[..|parts| - 1] + [parts[|parts| - 1] + ".0"];
    }
  }

  lemma NextParts(parts: seq<string>, k: nat, longer: seq<string>)
    requires k < |parts| && forall p :: p in parts ==> '-' !in p
    requires longer == parts[..k] + [parts[k] + ".0"] + parts[k + 1..]
    ensures |longer| == |parts| && longer[..k] == parts[..k] && longer[k + 1..] == parts[k + 1..]
    ensures longer[k] == parts[k] + ".0" && forall p :: p in longer ==> '-' !in p
  {
  }

  lemma SameKind(name: string, next: string, distro: Distro, k: nat)
    requires ParseVersionType(name, distro).Some? && k == VersionPart(distro, Split(name, '-'))
    requires k < |Split(name, '-')| == |Split(next, '-')|
    requires Split(next, '-')[..k] == Split(name, '-')[..k] && Split(next, '-')[k + 1..] == Split(name, '-')[k + 1..]
    ensures ParseVersionType(next, distro)
         == Some(VersionText(Split(next, '-')[k], ParseVersionType(name, distro).value.kind))
  {
    var p, q := Split(name, '-'), Split(next, '-');
    hide Split, Join;
    assert forall i :: 0 <= i < k ==> q[i] == q[..k][i] == p[i];
    assert forall i :: k < i < |p| ==> q[i] == q[k + 1..][i - k - 1] == p[i];
    match distro
    case Debian => assert p[3..] == q[3..];
    case Fedora =>
    case Arch =>
    case _ => assert p[k + 1..] == q[k + 1..];
  }

  /** Names of one image for the versions 24.4, 24.5 and 24.6. */
  lemma {:induction false} SuccessiveNames()
    ensures Parse(KaliName("24", "4")) == Some(Parsed(Group(Kali, "x"), [24, 4]))
    ensures Parse(KaliName("24", "5")) == Some(Parsed(Group(Kali, "x"), [24, 5]))
    ensures Parse(KaliName("24", "6")) == Some(Parsed(Group(Kali, "x"), [24, 6]))
  {
    OneDigit("4");
    OneDigit("5");
    OneDigit("6");
    TwoDigits("24");
    hide Parse, ParseInt, KaliName;
    KaliParse("24", "4", 24, 4);
    KaliParse("24", "5", 24, 5);
    KaliParse("24", "6", 24, 6);
  }

  lemma NotDevuan(name: string)
    requires Parse(name).Some?
    ensures DistroOf(name).Some? && !IsDevuan(name)
  {
    hide ParseVersionType, VersionTuple, IsDevuan, DistroOf;
    if IsDevuan(name) {
      DevuanHasNoDistro(name);
    }
  }

  lemma DevuanHasNoDistro(name: string)
    requires IsDevuan(name)
    ensures DistroOf(name).None?
  {
    assert name[0] == 'd' && name[2] == 'v';
  }

  // ---------------------------------------------------------------------------
  // What the names of each distribution look like
  // ---------------------------------------------------------------------------

  /** A name belongs to the one distribution whose beginning it has. */
  lemma {:induction false} DistroIff(name: string, distro: Distro)
    ensures DistroOf(name) == Some(distro) <==>
              match distro
              case Ubuntu => "ubuntu-" <= name || "lubuntu-" <= name || "xubuntu-" <= name
              case Debian => "debian-" <= name
              case Kali => "kali-linux-" <= name
              case Arch => "archlinux-" <= name
              case Mint => "linuxmint-" <= name
              case Fedora => "Fedora-Workstation-Live-" <= name
    ensures IsDevuan(name) <==> |name| >= 7 && name[..7] == "devuan_"
  {
    Beginnings(name);
    assert |name| >= 7 && name[..7] == "devuan_" ==> "devuan_" <= name;
  }

  /** No name has the beginnings of two distributions. */
  lemma Beginnings(name: string)
    ensures "ubuntu-" <= name ==> name[0] == 'u'
    ensures "lubuntu-" <= name ==> name[0] == 'l' && name[1] == 'u'
    ensures "xubuntu-" <= name ==> name[0] == 'x'
    ensures "debian-" <= name ==> name[0] == 'd'
    ensures "kali-linux-" <= name ==> name[0] == 'k'
    ensures "archlinux-" <= name ==> name[0] == 'a'
    ensures "linuxmint-" <= name ==> name[0] == 'l' && name[1] == 'i'
    ensures "Fedora-Workstation-Live-" <= name ==> name[0] == 'F'
  {
  }

  lemma SplitWord(word: string, tail: string)
    requires '-' !in word
    ensures Split(word + "-" + tail, '-') == [word] + Split(tail, '-')
  {
    assert word + "-" + tail == word + (['-'] + tail);
    SplitPrefix(word, tail, '-');
  }

  lemma SplitTwoWords(word: string, second: string, tail: string)
    requires '-' !in word && '-' !in second
    ensures Split(word + "-" + second + "-" + tail, '-') == [word, second] + Split(tail, '-')
  {
    assert word + "-" + second + "-" + tail == word + "-" + (second + "-" + tail);
    SplitWord(word, second + "-" + tail);
    SplitWord(second, tail);
  }

  /** `word-version-rest`: the layout of Ubuntu, Arch and Mint names. */
  lemma {:induction false} WordVersionRest(word: string, version: string, rest: string)
    requires '-' !in word && '-' !in version
    ensures var name := word + "-" + version + "-" + rest;
            && ParseVersionType(name, Ubuntu) == Some(VersionText(version, word + "-" + rest))
            && ParseVersionType(name, Arch) == Some(VersionText(version, ""))
            && ParseVersionType(name, Mint) == Some(VersionText(version, rest))
  {
    SplitTwoWords(word, version, rest);
    JoinSplit(rest, '-');
    var parts := [word, version] + Split(rest, '-');
    assert parts[2..] == Split(rest, '-') && parts[0] == word && parts[1] == version;
    hide Split, Join;
  }

  /** `word-version-arch-rest`: the layout of Debian names. */
  lemma {:induction false} WordVersionArchRest(word: string, version: string, arch: string, rest: string)
    requires '-' !in word && '-' !in version && '-' !in arch
    ensures ParseVersionType(word + "-" + version + "-" + (arch + "-" + rest), Debian)
         == Some(VersionText(version, arch + "-" + rest))
  {
    SplitTwoWords(word, version, arch + "-" + rest);
    SplitWord(arch, rest);
    JoinSplit(rest, '-');
    var parts := [word, version] + ([arch] + Split(rest, '-'));
    assert parts[3..] == Split(rest, '-') && parts[1] == version && parts[2] == arch;
    hide Split, Join;
  }

  /** `word-word-version-rest`: the layout of Kali names. */
  lemma {:induction false} WordsVersionRest(word: string, second: string, version: string, rest: string)
    requires '-' !in word && '-' !in second && '-' !in version
    ensures ParseVersionType(word + "-" + second + "-" + (version + "-" + rest), Kali)
         == Some(VersionText(version, rest))
  {
    SplitTwoWords(word, second, version + "-" + rest);
    SplitWord(version, rest);
    JoinSplit(rest, '-');
    var parts := [word, second] + ([version] + Split(rest, '-'));
    assert parts[3..] == Split(rest, '-') && parts[2] == version;
    hide Split, Join;
  }

  /** `words-arch-version`: the layout of Fedora names. */
  lemma {:induction false} WordsArchVersion(words: string, arch: string, version: string)
    requires '-' !in arch && '-' !in version
    ensures ParseVersionType(words + "-" + arch + "-" + version, Fedora) == Some(VersionText(version, arch))
  {
    assert words + "-" + arch + "-" + version == (words + (['-'] + arch)) + (['-'] + version);
    SplitSnoc(words + (['-'] + arch), version, '-');
    SplitSnoc(words, arch, '-');
    var parts := Split(words, '-') + [arch] + [version];
    assert parts[|parts| - 1] == version && parts[|parts| - 2] == arch;
    hide Split;
  }

  // ---------------------------------------------------------------------------
  // What reads as a number
  // ---------------------------------------------------------------------------

  predicate AllDigits(s: string) {
    s != "" && forall k :: 0 <= k < |s| ==> IsDigit(s[k])
  }

  /** The digits, without the underscores between them. */
  function DigitsOnly(s: string): seq<digit> {
    if s == "" then [] else (if IsDigit(s[0]) then [DigitOf(s[0])] else []) + DigitsOnly(s[1..])
  }

  /** What `int()` accepts between the blanks and behind a plus sign: groups of digits between single
      underscores; and it is the number all the digits make. */
  lemma {:induction false} NumberTextIff(s: string)
    ensures DigitRun(s).Some? <==> forall p :: p in Split(s, '_') ==> AllDigits(p)
    ensures DigitRun(s).Some? ==> DigitRun(s) == Some(DigitsOnly(s))
    decreases |s|
  {
    hide IsDigit, DigitValue;
    UnderscoreIsNoDigit();
    if s == "" {
      assert "" in Split(s, '_');
    } else if !IsDigit(s[0]) {
      FirstGroup(s);
    } else if |s| == 1 {
      SplitOne(s);
      var none: seq<digit> := [];
      assert DigitsOnly("") == none && [DigitOf(s[0])] + none == [DigitOf(s[0])];
      assert DigitsOnly(s) == [DigitOf(s[0])] + DigitsOnly(s[1..]);
      assert forall p :: p in [s] <==> p == s;
    } else if s[1] == '_' {
      NumberTextIff(s[2..]);
      AfterUnderscore(s);
      hide Split, DigitsOnly;
    } else {
      NumberTextIff(s[1..]);
      OneMoreDigit(s);
      hide Split;
    }
  }

  lemma AfterUnderscore(s: string)
    requires |s| > 1 && IsDigit(s[0]) && s[1] == '_'
    ensures (forall p :: p in Split(s, '_') ==> AllDigits(p))
            <==> (forall p :: p in Split(s[2..], '_') ==> AllDigits(p))
    ensures DigitsOnly(s) == [DigitOf(s[0])] + DigitsOnly(s[2..])
  {
    UnderscoreIsNoDigit();
    assert AllDigits([s[0]]);
    assert '_' !in [s[0]];
    DigitsAfterUnderscore(s);
    hide *;
    assert s == [s[0]] + (['_'] + s[2..]);
    SplitPrefix([s[0]], s[2..], '_');
    var rest := Split(s[2..], '_');
    assert forall p :: p in [[s[0]]] + rest <==> p == [s[0]] || p in rest;
  }

  lemma DigitsAfterUnderscore(s: string)
    requires |s| > 1 && IsDigit(s[0]) && s[1] == '_'
    ensures DigitsOnly(s) == [DigitOf(s[0])] + DigitsOnly(s[2..])
  {
    UnderscoreIsNoDigit();
    hide IsDigit, DigitOf;
    assert s[1..][1..] == s[2..] && s[1..][0] == '_';
    assert DigitsOnly(s[1..]) == [] + DigitsOnly(s[2..]);
  }

  lemma UnderscoreIsNoDigit()
    ensures !IsDigit('_')
  {
  }

  lemma SplitOne(s: string)
    requires |s| == 1 && IsDigit(s[0])
    ensures Split(s, '_') == [s] && AllDigits(s) && s[1..] == ""
  {
    UnderscoreIsNoDigit();
    hide IsDigit;
    assert '_' !in s;
  }

  /** A first character that is no digit spoils the first group. */
  lemma FirstGroup(s: string)
    requires s != "" && !IsDigit(s[0])
    ensures exists p :: p in Split(s, '_') && !AllDigits(p)
  {
    hide IsDigit;
    var groups := Split(s, '_');
    assert groups[0] in groups;
    if s[0] != '_' {
      assert groups[0][0] == s[0];
    }
  }

  lemma OneMoreDigit(s: string)
    requires |s| > 1 && IsDigit(s[0]) && s[0] != '_' && s[1] != '_'
    ensures (forall p :: p in Split(s, '_') ==> AllDigits(p))
            <==> (forall p :: p in Split(s[1..], '_') ==> AllDigits(p))
  {
    hide IsDigit;
    var rest := Split(s[1..], '_');
    assert Split(s, '_') == [[s[0]] + rest[0]] + rest[1..];
    assert rest[0] != "" && rest == [rest[0]] + rest[1..];
    var longer := [s[0]] + rest[0];
    assert AllDigits(longer) <==> AllDigits(rest[0]) by {
      assert forall k :: 0 <= k < |rest[0]| ==> longer[k + 1] == rest[0][k];
    }
    hide AllDigits;
    assert longer in Split(s, '_') && rest[0] in rest;
    assert forall p :: p in Split(s, '_') ==> p == longer || p in rest[1..];
    assert forall p :: p in rest ==> p == rest[0] || p in rest[1..];
    assert forall p :: p in rest[1..] ==> p in rest && p in Split(s, '_');
  }

  /** A version is a text whose parts between the dots read as numbers, and it is those numbers. */
  lemma {:induction false} VersionIff(parts: seq<string>)
    ensures ParseInts(parts).Some? <==> forall p :: p in parts ==> ParseInt(p).Some?
    ensures ParseInts(parts).Some? ==>
              && |ParseInts(parts).value| == |parts|
              && forall k :: 0 <= k < |parts| ==> ParseInt(parts[k]) == Some(ParseInts(parts).value[k])
  {
    hide ParseInt;
    if parts != [] {
      VersionIff(parts[1..]);
      assert parts == [parts[0]] + parts[1..];
    }
  }

  /** A text reads as a number if and only if, without blanks around it and one plus sign, it is groups of
      digits between single underscores; and it is the number all its digits make. */
  lemma {:induction false} IntTextIff(s: string)
    ensures var text := Strip(s);
            var body := if text != "" && text[0] == '+' then text[1..] else text;
            && (ParseInt(s).Some? <==> forall p :: p in Split(body, '_') ==> AllDigits(p))
            && (ParseInt(s).Some? ==> ParseInt(s) == Some(ValueOf(DigitsOnly(body))))
  {
    var text := Strip(s);
    NumberTextIff(if text != "" && text[0] == '+' then text[1..] else text);
  }
}
