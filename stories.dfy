/**
 * `convertStory`: every `tw-passagedata` element of the `tw-storydata` element is
 * converted, the story attributes are copied, and then every link is given the pid of
 * the passage its name refers to, or marked broken when there is none.
 */
module Stories {
  import opened Wrappers
  import opened Links
  import opened Passages

  /** The parts of a `tw-storydata` element the converter reads: its passage elements in document order and five attributes. */
  datatype StoryElement = StoryElement(
    passages: seq<PassageElement>,
    name: string,
    startnode: string,
    creator: string,
    creatorVersion: string,
    ifid: string)

  /** The story record. */
  datatype Story = Story(
    passages: seq<Passage>,
    name: Option<string>,
    startnode: Option<string>,
    creator: Option<string>,
    creatorVersion: Option<string>,
    ifid: Option<string>)

  /** The property key a passage name becomes in `pidsByName`: a missing name is converted to the string "undefined". */
  function NameKey(name: Option<string>): string {
    match name
    case None => "undefined"
    case Some(n) => n
  }

  /** `pidsByName` after the passages ps were entered in order. */
  function PidTable(ps: seq<Passage>): map<string, Option<string>> {
    if ps == [] then map[]
    else PidTable(ps[..|ps| - 1])[NameKey(ps[|ps| - 1].name) := ps[|ps| - 1].pid]
  }

  /** The link with its pid looked up by name; it is marked broken when the pid is missing or empty. */
  function Resolve(l: Link, table: map<string, Option<string>>): Link {
    var pid := if l.name in table then table[l.name] else None;
    if pid.None? || pid == Some("") then l.(pid := pid, broken := true) else l.(pid := pid)
  }

  /** Every link of the passage resolved; a passage without links is left alone. */
  function ResolveLinks(p: Passage, table: map<string, Option<string>>): Passage {
    match p.links
    case None => p
    case Some(ls) => p.(links := Some(seq(|ls|, m requires 0 <= m < |ls| => Resolve(ls[m], table))))
  }

  /** f applied to every element of s, in order. */
  function Map<A, B>(f: A -> B, s: seq<A>): (r: seq<B>)
    ensures |r| == |s|
  {
    if s == [] then [] else Map(f, s[..|s| - 1]) + [f(s[|s| - 1])]
  }

  /** Mapping one more element of a prefix appends its image. */
  lemma MapPrefix<A, B>(f: A -> B, s: seq<A>, i: nat)
    requires i < |s|
    ensures Map(f, s[..i + 1]) == Map(f, s[..i]) + [f(s[i])]
  {
    assert s[..i + 1][..i] == s[..i];
  }

  /** Mapping all of s through its prefixes. */
  lemma MapWhole<A, B>(f: A -> B, s: seq<A>)
    ensures Map(f, s[..|s|]) == Map(f, s)
  {
    assert s[..|s|] == s;
  }

  /** The j-th image is f of the j-th element. */
  lemma {:induction false} MapAt<A, B>(f: A -> B, s: seq<A>, j: nat)
    requires j < |s|
    ensures Map(f, s)[j] == f(s[j])
    decreases |s|
  {
    if j < |s| - 1 {
      MapAt(f, s[..|s| - 1], j);
    }
  }

  /** The converted passages, in document order, before their links are resolved. */
  function Converted(elements: seq<PassageElement>): seq<Passage> {
    Map(PassageOf, elements)
  }

  /** The passages with every link resolved against the table built from them. */
  function Resolved(ps: seq<Passage>): seq<Passage> {
    var table := PidTable(ps);
    seq(|ps|, i requires 0 <= i < |ps| => ResolveLinks(ps[i], table))
  }

  /** The record `convertStory` returns. */
  function StoryOf(e: StoryElement): Story {
    Story(Resolved(Converted(e.passages)), Attribute(e.name), Attribute(e.startnode), Attribute(e.creator),
          Attribute(e.creatorVersion), Attribute(e.ifid))
  }

  /**
   * `convertStory`: convert the passages, copy the attributes, then give the links
   * their pids.
   */
  method ConvertStory(e: StoryElement) returns (r: Story)
    ensures r == StoryOf(e)
  {
    var converted := ConvertAll(e.passages);

    var name := Attribute(e.name);
    var startnode := Attribute(e.startnode);
    var creator := Attribute(e.creator);
    var creatorVersion := Attribute(e.creatorVersion);
    var ifid := Attribute(e.ifid);

    var passages := AddPids(converted);
    r := Story(passages, name, startnode, creator, creatorVersion, ifid);
  }

  /** The first step of `convertStory`: every passage element converted, in document order. */
  method ConvertAll(elements: seq<PassageElement>) returns (converted: seq<Passage>)
    ensures converted == Converted(elements)
  {
    converted := [];
    var i := 0;
    while i < |elements|
      invariant 0 <= i <= |elements|
      invariant converted == Map(PassageOf, elements[..i])
    {
      var p := ConvertPassage(elements[i]);
      MapPrefix(PassageOf, elements, i);
      converted := converted + [p];
      i := i + 1;
    }
    MapWhole(PassageOf, elements);
  }

  /**
   * The "add PIDs to links" step of `convertStory`: fill `pidsByName` in passage order,
   * then update every link of every passage that has links.
   */
  method AddPids(converted: seq<Passage>) returns (passages: seq<Passage>)
    ensures passages == Resolved(converted)
  {
    var pidsByName: map<string, Option<string>> := map[];
    var i := 0;
    while i < |converted|
      invariant 0 <= i <= |converted|
      invariant pidsByName == PidTable(converted[..i])
    {
      assert converted[..i + 1][..i] == converted[..i];
      pidsByName := pidsByName[NameKey(converted[i].name) := converted[i].pid];
      i := i + 1;
    }
    assert converted[..i] == converted;

    passages := converted;
    i := 0;
    while i < |passages|
      invariant 0 <= i <= |passages| == |converted|
      invariant forall j :: 0 <= j < i ==> passages[j] == ResolveLinks(converted[j], pidsByName)
      invariant forall j :: i <= j < |passages| ==> passages[j] == converted[j]
    {
      var passage := passages[i];
      if passage.links.Some? {
        var links := passage.links.value;
        var k := 0;
        while k < |links|
          invariant 0 <= k <= |links| == |passage.links.value|
          invariant forall m :: 0 <= m < k ==> links[m] == Resolve(passage.links.value[m], pidsByName)
          invariant forall m :: k <= m < |links| ==> links[m] == passage.links.value[m]
        {
          var link := links[k];
          var pid := if link.name in pidsByName then pidsByName[link.name] else None;
          link := link.(pid := pid);
          if pid.None? || pid == Some("") {
            link := link.(broken := true);
          }
          links := links[k := link];
          k := k + 1;
        }
        assert links == seq(|links|, m requires 0 <= m < |links| => Resolve(passage.links.value[m], pidsByName));
        passages := passages[i := passage.(links := Some(links))];
      }
      i := i + 1;
    }
  }

  /** A name is a key of the table exactly when some passage has that name. */
  lemma {:induction false} PidTableKeys(ps: seq<Passage>, key: string)
    ensures key in PidTable(ps) <==> exists j :: 0 <= j < |ps| && NameKey(ps[j].name) == key
  {
    if ps != [] {
      var init := ps[..|ps| - 1];
      PidTableKeys(init, key);
      if exists j :: 0 <= j < |init| && NameKey(init[j].name) == key {
        var j :| 0 <= j < |init| && NameKey(init[j].name) == key;
        assert ps[j] == init[j];
      }
      if exists j :: 0 <= j < |ps| && NameKey(ps[j].name) == key {
        var j :| 0 <= j < |ps| && NameKey(ps[j].name) == key;
        if j < |init| {
          assert init[j] == ps[j];
        }
      }
    }
  }

  /** The table holds, for a name, the pid of the last passage with that name. */
  lemma {:induction false} PidTableLastWins(ps: seq<Passage>, j: nat)
    requires j < |ps|
    requires forall j' :: j < j' < |ps| ==> NameKey(ps[j'].name) != NameKey(ps[j].name)
    ensures NameKey(ps[j].name) in PidTable(ps)
    ensures PidTable(ps)[NameKey(ps[j].name)] == ps[j].pid
  {
    if j < |ps| - 1 {
      var init := ps[..|ps| - 1];
      assert init[j] == ps[j];
      forall j' | j < j' < |init| ensures NameKey(init[j'].name) != NameKey(init[j].name) {
        assert init[j'] == ps[j'];
      }
      PidTableLastWins(init, j);
    }
  }

  /** Resolving keeps the passages in order and changes nothing but their links. */
  lemma PassagesInOrder(ps: seq<Passage>, i: nat)
    requires i < |ps|
    ensures |Resolved(ps)| == |ps|
    ensures Resolved(ps)[i].(links := ps[i].links) == ps[i]
    ensures Resolved(ps)[i].links.None? <==> ps[i].links.None?
  {
  }

  /** Resolving keeps every link in place, with its name and condition. */
  lemma LinksKeepOrder(ps: seq<Passage>, i: nat, m: nat)
    requires i < |ps| && ps[i].links.Some? && m < |ps[i].links.value|
    ensures |Resolved(ps)[i].links.value| == |ps[i].links.value|
    ensures Resolved(ps)[i].links.value[m].name == ps[i].links.value[m].name
    ensures Resolved(ps)[i].links.value[m].condition == ps[i].links.value[m].condition
  {
  }

  /**
   * A link whose name is that of passage j, and of no later passage, gets passage j's
   * pid; when no passage has an empty pid, it is broken exactly when that pid is missing.
   */
  lemma LinkGetsPidOfLastNamedPassage(ps: seq<Passage>, i: nat, m: nat, j: nat)
    requires i < |ps| && j < |ps| && ps[i].links.Some? && m < |ps[i].links.value|
    requires NameKey(ps[j].name) == ps[i].links.value[m].name
    requires forall j' :: j < j' < |ps| ==> NameKey(ps[j'].name) != NameKey(ps[j].name)
    requires forall j' :: 0 <= j' < |ps| ==> ps[j'].pid != Some("")
    ensures Resolved(ps)[i].links.value[m].pid == ps[j].pid
    ensures Resolved(ps)[i].links.value[m].broken <==> ps[j].pid.None? || ps[i].links.value[m].broken
  {
    PidTableLastWins(ps, j);
  }

  /** A link whose name no passage has gets no pid and is broken. */
  lemma LinkToMissingPassageIsBroken(ps: seq<Passage>, i: nat, m: nat)
    requires i < |ps| && ps[i].links.Some? && m < |ps[i].links.value|
    requires forall j :: 0 <= j < |ps| ==> NameKey(ps[j].name) != ps[i].links.value[m].name
    ensures Resolved(ps)[i].links.value[m].pid.None?
    ensures Resolved(ps)[i].links.value[m].broken
  {
    PidTableKeys(ps, ps[i].links.value[m].name);
  }

  /** Converted passages never have an empty pid and their links start unresolved, so the lemmas above apply to a story. */
  lemma ConvertedPassages(elements: seq<PassageElement>, j: nat)
    requires j < |elements|
    ensures Converted(elements)[j].pid != Some("")
    ensures Converted(elements)[j].links.Some? ==> forall m :: 0 <= m < |Converted(elements)[j].links.value| ==>
      !Converted(elements)[j].links.value[m].broken && Converted(elements)[j].links.value[m].pid.None?
  {
    MapAt(PassageOf, elements, j);
    AttributesOfPassage(elements[j]);
  }

  /**
   * In a converted story, a link whose name is that of passage j, and of no later
   * passage, carries passage j's pid, and it is broken exactly when that pid is missing.
   */
  lemma StoryLinkGetsPid(e: StoryElement, i: nat, m: nat, j: nat)
    requires var ps := Converted(e.passages);
      && i < |ps| && j < |ps| && ps[i].links.Some? && m < |ps[i].links.value|
      && NameKey(ps[j].name) == ps[i].links.value[m].name
      && forall j' :: j < j' < |ps| ==> NameKey(ps[j'].name) != NameKey(ps[j].name)
    ensures StoryOf(e).passages[i].links.value[m].pid == Converted(e.passages)[j].pid
    ensures StoryOf(e).passages[i].links.value[m].broken <==> Converted(e.passages)[j].pid.None?
  {
    var ps := Converted(e.passages);
    forall j' | 0 <= j' < |ps| ensures ps[j'].pid != Some("") {
      ConvertedPassages(e.passages, j');
    }
    ConvertedPassages(e.passages, i);
    LinkGetsPidOfLastNamedPassage(ps, i, m, j);
  }

  /** In a converted story, a link whose name no passage has gets no pid and is broken. */
  lemma StoryLinkToMissingPassage(e: StoryElement, i: nat, m: nat)
    requires var ps := Converted(e.passages);
      && i < |ps| && ps[i].links.Some? && m < |ps[i].links.value|
      && forall j :: 0 <= j < |ps| ==> NameKey(ps[j].name) != ps[i].links.value[m].name
    ensures StoryOf(e).passages[i].links.value[m].pid.None?
    ensures StoryOf(e).passages[i].links.value[m].broken
  {
    LinkToMissingPassageIsBroken(Converted(e.passages), i, m);
  }
}
