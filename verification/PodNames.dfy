/** Pod identifiers, policy names and bpffs pin paths, as strings. */
module PodNames {

  // ----- splitting and joining

  function Split(s: string, sep: char): (parts: seq<string>)
    ensures |parts| >= 1
  {
    if s == "" then [""]
    else Prepend(s[0], Split(s[1..], sep), sep)
  }

  function Join(parts: seq<string>, sep: char): string {
    if parts == [] then ""
    else if |parts| == 1 then parts[0]
    else parts[0] + [sep] + Join(parts[1..], sep)
  }

  lemma {:induction false} JoinOfSplit(s: string, sep: char)
    ensures Join(Split(s, sep), sep) == s
  {
    if s != "" {
      JoinOfSplit(s[1..], sep);
      var rest := Split(s[1..], sep);
      if s[0] == sep {
        assert ([""] + rest)[1..] == rest;
      } else {
        var parts := [[s[0]] + rest[0]] + rest[1..];
        assert parts[1..] == rest[1..];
        if |rest| > 1 {
          assert Join(parts, sep) == [s[0]] + (rest[0] + [sep] + Join(rest[1..], sep));
        }
      }
    }
  }

  lemma {:induction false} SplitOfConcat(a: string, b: string, sep: char)
    ensures Split(a + [sep] + b, sep) == Split(a, sep) + Split(b, sep)
  {
    var whole := a + [sep] + b;
    if a == "" {
      assert whole[1..] == b;
    } else {
      SplitOfConcat(a[1..], b, sep);
      assert whole[0] == a[0] && whole[1..] == a[1..] + [sep] + b;
      PrependToSplit(a[0], Split(a[1..], sep), Split(b, sep), sep);
      assert Split(whole, sep) == Prepend(a[0], Split(whole[1..], sep), sep);
      assert Split(a, sep) == Prepend(a[0], Split(a[1..], sep), sep);
    }
  }

  /** One more character in front of a split string. */
  function Prepend(c: char, parts: seq<string>, sep: char): seq<string>
    requires parts != []
  {
    if c == sep then [""] + parts else [[c] + parts[0]] + parts[1..]
  }

  lemma PrependToSplit(c: char, front: seq<string>, back: seq<string>, sep: char)
    requires front != []
    ensures Prepend(c, front + back, sep) == Prepend(c, front, sep) + back
  {
    assert (front + back)[1..] == front[1..] + back;
  }

  lemma {:induction false} SplitOfWhole(s: string, sep: char)
    requires sep !in s
    ensures Split(s, sep) == [s]
  {
    if s != "" {
      SplitOfWhole(s[1..], sep);
      assert s == [s[0]] + s[1..];
    }
  }

  /** The last position of `c`; -1 when there is none. */
  function LastIndex(s: string, c: char): (i: int)
    ensures -1 <= i < |s|
    ensures i >= 0 ==> s[i] == c
    ensures forall j | i < j < |s| :: s[j] != c
  {
    if s == "" then -1
    else if s[|s| - 1] == c then |s| - 1
    else LastIndex(s[..|s| - 1], c)
  }

  lemma LastIndexOfConcat(a: string, b: string, c: char)
    requires c !in b
    ensures LastIndex(a + [c] + b, c) == |a|
  {
    var s := a + [c] + b;
    var i := LastIndex(s, c);
    assert s[|a|] == c;
    assert |a| <= i;
    assert s[i] in b || i == |a|;
  }

  // ----- parents of policy slices

  predicate HasParent(name: string) {
    '-' in name
  }

  /** `GetParentNPNameFromPEName`: everything before the last dash. */
  function ParentOf(name: string): string
    requires HasParent(name)
  {
    var i := LastIndex(name, '-');
    assert i >= 0;
    name[..i]
  }

  /** A generated slice name leads back to its parent, even when the parent's name has dashes. */
  lemma ParentOfGenerated(parent: string, suffix: string)
    requires '-' !in suffix
    ensures HasParent(parent + "-" + suffix) && ParentOf(parent + "-" + suffix) == parent
  {
    LastIndexOfConcat(parent, suffix, '-');
    assert (parent + "-" + suffix)[|parent|] == '-';
  }

  // ----- pod identifiers

  function ReplaceDots(s: string): (r: string)
    ensures |r| == |s|
    ensures forall i | 0 <= i < |s| :: r[i] == if s[i] == '.' then '_' else s[i]
  {
    seq(|s|, i requires 0 <= i < |s| => if s[i] == '.' then '_' else s[i])
  }

  function IdentifierPrefix(podName: string): string {
    if '-' in podName then
      var parts := Split(podName, '-');
      Join(parts[..|parts| - 1], '-')
    else podName
  }

  function PodIdentifier(podName: string, podNamespace: string): string {
    IdentifierPrefix(ReplaceDots(podName)) + "@" + podNamespace
  }

  /** The key of the pod caches. */
  function PodKey(podName: string, podNamespace: string): string {
    podName + "_" + podNamespace
  }

  /** A name without its last dash-separated segment: the name of the workload the pod belongs to. */
  function Base(podName: string): string {
    if '-' in podName then podName[..LastIndex(podName, '-')] else podName
  }

  /** The characters section 2.1 of RFC 1123 admits in names. */
  predicate IsDns(s: string) {
    forall i | 0 <= i < |s| :: s[i] == '-' || s[i] == '.' || 'a' <= s[i] <= 'z' || '0' <= s[i] <= '9'
  }

  lemma PrefixIsBase(podName: string)
    ensures IdentifierPrefix(podName) == Base(podName)
  {
    if '-' in podName {
      var i := LastIndex(podName, '-');
      assert i >= 0;
      var front, back := podName[..i], podName[i + 1..];
      assert podName == front + ['-'] + back;
      SplitOfConcat(front, back, '-');
      SplitOfWhole(back, '-');
      var parts := Split(podName, '-');
      assert parts[..|parts| - 1] == Split(front, '-');
      JoinOfSplit(front, '-');
    }
  }

  lemma BaseOfReplaced(podName: string)
    ensures Base(ReplaceDots(podName)) == ReplaceDots(Base(podName))
  {
    var r := ReplaceDots(podName);
    var i, j := LastIndex(podName, '-'), LastIndex(r, '-');
    assert i >= 0 ==> r[i] == '-';
    assert j >= 0 ==> podName[j] == '-';
    assert i == j;
    assert '-' in podName <==> i >= 0;
    assert '-' in r <==> j >= 0;
  }

  lemma ReplaceDotsInjective(a: string, b: string)
    requires IsDns(a) && IsDns(b) && ReplaceDots(a) == ReplaceDots(b)
    ensures a == b
  {
    assert |a| == |ReplaceDots(a)| == |b|;
    forall i | 0 <= i < |a|
      ensures a[i] == b[i]
    {
      assert ReplaceDots(a)[i] == ReplaceDots(b)[i];
    }
  }

  /** A separator that neither side contains splits a string in one way only. */
  lemma SeparatorSplitsOnce(a: string, b: string, c: string, d: string, sep: char)
    requires sep !in a && sep !in c && a + [sep] + b == c + [sep] + d
    ensures a == c && b == d
  {
    var s := a + [sep] + b;
    var t := c + [sep] + d;
    assert s[|a|] == sep && t[|c|] == sep;
    assert forall k | 0 <= k < |a| :: s[k] == a[k] && s[k] != sep;
    assert forall k | 0 <= k < |c| :: t[k] == c[k] && t[k] != sep;
    assert |a| == |c|;
    assert a == s[..|a|] == t[..|c|] == c;
    assert b == s[|a| + 1..] == t[|c| + 1..] == d;
  }

  /** Two pods share an identifier exactly when they share the namespace and the name of their workload. */
  lemma IdentifierIdentity(name: string, namespace: string, name': string, namespace': string)
    requires IsDns(name) && IsDns(namespace) && IsDns(name') && IsDns(namespace')
    ensures PodIdentifier(name, namespace) == PodIdentifier(name', namespace')
       <==> Base(name) == Base(name') && namespace == namespace'
  {
    PrefixIsBase(ReplaceDots(name));
    PrefixIsBase(ReplaceDots(name'));
    BaseOfReplaced(name);
    BaseOfReplaced(name');
    var p, p' := ReplaceDots(Base(name)), ReplaceDots(Base(name'));
    if PodIdentifier(name, namespace) == PodIdentifier(name', namespace') {
      assert '@' !in p && '@' !in p';
      SeparatorSplitsOnce(p, namespace, p', namespace', '@');
      ReplaceDotsInjective(Base(name), Base(name'));
    }
  }

  /** The identifier is the workload's name, dots written as underscores, then `@`, then the namespace. */
  lemma IdentifierText(name: string, namespace: string)
    ensures var base, id := Base(name), PodIdentifier(name, namespace);
            && |id| == |base| + 1 + |namespace|
            && (forall i | 0 <= i < |base| :: id[i] == if base[i] == '.' then '_' else base[i])
            && '.' !in id[..|base|] && id[|base|..] == "@" + namespace
  {
    PrefixIsBase(ReplaceDots(name));
    BaseOfReplaced(name);
    var base, id := Base(name), PodIdentifier(name, namespace);
    assert id == ReplaceDots(base) + ("@" + namespace);
    assert id[..|base|] == ReplaceDots(base) && id[|base|..] == "@" + namespace;
  }

  /** The pod caches never confuse two pods. */
  lemma PodKeyInjective(name: string, namespace: string, name': string, namespace': string)
    requires IsDns(name) && IsDns(name') && PodKey(name, namespace) == PodKey(name', namespace')
    ensures name == name' && namespace == namespace'
  {
    assert '_' !in name && '_' !in name';
    SeparatorSplitsOnce(name, namespace, name', namespace', '_');
  }

  // ----- pin paths

  // /sys/fs/bpf/globals/aws/programs/
  const DIRECTORY := ["", "sys", "fs", "bpf", "globals", "aws", "programs"]
  const PROGRAM_DIRECTORY := Within(DIRECTORY, "")

  /** A file below nested directories. */
  function Within(directories: seq<string>, file: string): string {
    if directories == [] then file else directories[0] + "/" + Within(directories[1..], file)
  }

  function ProgramName(direction: string): string {
    if direction == "egress" then "handle_egress" else "handle_ingress"
  }

  function PinPath(identifier: string, direction: string): string {
    PROGRAM_DIRECTORY + identifier + "_" + ProgramName(direction)
  }

  /** `GetPodIdentifierFromBPFPinPath`, which indexes the path's components without checking. */
  function ParsePinPath(path: string): (string, string)
    requires |Split(path, '/')| > 7 && |Split(Split(path, '/')[7], '_')| >= 2
  {
    var parts := Split(Split(path, '/')[7], '_');
    (Join(parts[..|parts| - 2], '_'), parts[|parts| - 1])
  }

  lemma {:induction false} WithinConcat(directories: seq<string>, file: string)
    ensures Within(directories, "") + file == Within(directories, file)
  {
    if directories != [] {
      WithinConcat(directories[1..], file);
      assert Within(directories, "") + file == directories[0] + "/" + (Within(directories[1..], "") + file);
    }
  }

  lemma {:induction false} SplitWithin(directories: seq<string>, file: string)
    requires '/' !in file && forall d | d in directories :: '/' !in d
    ensures Split(Within(directories, file), '/') == directories + [file]
  {
    if directories == [] {
      SplitOfWhole(file, '/');
    } else {
      SplitWithin(directories[1..], file);
      SplitOfConcat(directories[0], Within(directories[1..], file), '/');
      SplitOfWhole(directories[0], '/');
    }
  }

  /** Parsing a program's pin path gives back the identifier and direction it was made from. */
  lemma PinPathRoundTrip(identifier: string, direction: string)
    requires '/' !in identifier && (direction == "ingress" || direction == "egress")
    ensures var path := PinPath(identifier, direction);
            && |Split(path, '/')| > 7 && |Split(Split(path, '/')[7], '_')| >= 2
            && ParsePinPath(path) == (identifier, direction)
  {
    PinPathSplit(identifier, direction);
    FileRoundTrip(identifier, direction);
  }

  lemma PinPathSplit(identifier: string, direction: string)
    requires '/' !in identifier && (direction == "ingress" || direction == "egress")
    ensures Split(PinPath(identifier, direction), '/') == DIRECTORY + [identifier + "_" + ProgramName(direction)]
  {
    var file := identifier + "_" + ProgramName(direction);
    WithinConcat(DIRECTORY, file);
    assert PinPath(identifier, direction) == PROGRAM_DIRECTORY + file;
    assert '/' !in ProgramName(direction);
    SplitWithin(DIRECTORY, file);
  }

  /** The file is in the agent's program directory. */
  lemma PinPathComponents(identifier: string)
    requires '/' !in identifier
    ensures Split(PinPath(identifier, "ingress"), '/')
         == ["", "sys", "fs", "bpf", "globals", "aws", "programs"] + [identifier + "_" + "handle_ingress"]
    ensures Split(PinPath(identifier, "egress"), '/')
         == ["", "sys", "fs", "bpf", "globals", "aws", "programs"] + [identifier + "_" + "handle_egress"]
  {
    PinPathSplit(identifier, "ingress");
    PinPathSplit(identifier, "egress");
  }

  lemma FileRoundTrip(identifier: string, direction: string)
    requires direction == "ingress" || direction == "egress"
    ensures var parts := Split(identifier + "_" + ProgramName(direction), '_');
            |parts| >= 2 && Join(parts[..|parts| - 2], '_') == identifier && parts[|parts| - 1] == direction
  {
    SplitOfConcat(identifier, ProgramName(direction), '_');
    ProgramNameSplit(direction);
    var parts := Split(identifier + "_" + ProgramName(direction), '_');
    assert parts[..|parts| - 2] == Split(identifier, '_');
    JoinOfSplit(identifier, '_');
  }

  lemma ProgramNameSplit(direction: string)
    requires direction == "ingress" || direction == "egress"
    ensures Split(ProgramName(direction), '_') == ["handle", direction]
  {
    if direction == "egress" {
      assert ProgramName("egress") == "handle" + ['_'] + "egress";
    } else {
      assert ProgramName("ingress") == "handle" + ['_'] + "ingress";
    }
    SplitOfConcat("handle", direction, '_');
    SplitOfWhole("handle", '_');
    SplitOfWhole(direction, '_');
  }
}
