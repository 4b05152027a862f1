/** mockgcp/mockasset/feed.go: feed names, the aliases they have, and the storage keyed by them. */
module FeedNames {
  import opened Wrappers
  import opened Names

  datatype FeedName = FeedName(projectNumber: int, folderID: string, organizationID: string, feedID: string)

  /** `GetProjectByIDOrNumber`: the project number behind each accepted ID or number. One project may
      have any number of such names: "7", "007" and "+7" all read as number 7. */
  type Projects = string -> Option<int>

  /** A project that can be looked up can be looked up by its number. */
  ghost predicate KnownByNumber(projects: Projects) {
    forall t :: projects(t).Some? ==> projects(Decimal(projects(t).value)) == projects(t)
  }

  /** `feedName.String`. */
  function Print(n: FeedName): string {
    if n.organizationID != "" then "organizations" + "/" + n.organizationID + "/" + "feeds" + "/" + n.feedID
    else if n.folderID != "" then "folders" + "/" + n.folderID + "/" + "feeds" + "/" + n.feedID
    else "projects" + "/" + Decimal(n.projectNumber) + "/" + "feeds" + "/" + n.feedID
  }

  function ParseFeedName(projects: Projects, name: string): Option<FeedName> {
    var tokens := Split(name);
    if |tokens| != 4 || tokens[2] != "feeds" then None
    else if tokens[0] == "projects" then
      if projects(tokens[1]).Some? then Some(FeedName(projects(tokens[1]).value, "", "", tokens[3])) else None
    else if tokens[0] == "folders" then Some(FeedName(0, tokens[1], "", tokens[3]))
    else if tokens[0] == "organizations" then Some(FeedName(0, "", tokens[1], tokens[3]))
    else None
  }

  // ---------------------------------------------------------------- what a name denotes

  datatype Scope = Project(number: int) | Folder(id: string) | Organization(id: string)

  /** `name` is `collection/token/feeds/feedID` for a token that names the scope. */
  ghost predicate Denotes(projects: Projects, name: string, scope: Scope, feedID: string) {
    && NoSlash(feedID)
    && match scope
       case Project(number) => exists t :: NoSlash(t) && projects(t) == Some(number) &&
                                 name == "projects" + "/" + t + "/" + "feeds" + "/" + feedID
       case Folder(id) => NoSlash(id) && name == "folders" + "/" + id + "/" + "feeds" + "/" + feedID
       case Organization(id) => NoSlash(id) && name == "organizations" + "/" + id + "/" + "feeds" + "/" + feedID
  }

  /** Scopes with an empty ID are not told apart from project number 0. */
  function Canonical(scope: Scope): Scope {
    if scope == Folder("") || scope == Organization("") then Project(0) else scope
  }

  function NameFor(scope: Scope, feedID: string): FeedName {
    match Canonical(scope)
    case Project(number) => FeedName(number, "", "", feedID)
    case Folder(id) => FeedName(0, id, "", feedID)
    case Organization(id) => FeedName(0, "", id, feedID)
  }

  lemma DenotedIsParsed(projects: Projects, name: string, scope: Scope, feedID: string)
    requires Denotes(projects, name, scope, feedID)
    ensures ParseFeedName(projects, name) == Some(NameFor(scope, feedID))
  {
    match scope
    case Project(number) =>
      var t :| NoSlash(t) && projects(t) == Some(number) &&
               name == "projects" + "/" + t + "/" + "feeds" + "/" + feedID;
      SplitFour("projects", t, "feeds", feedID);
    case Folder(id) => SplitFour("folders", id, "feeds", feedID);
    case Organization(id) => SplitFour("organizations", id, "feeds", feedID);
  }

  lemma ParsedIsDenoted(projects: Projects, name: string) returns (scope: Scope, feedID: string)
    requires ParseFeedName(projects, name).Some?
    ensures Denotes(projects, name, scope, feedID)
  {
    var t := Split(name);
    JoinFour(name);
    feedID := t[3];
    scope := if t[0] == "projects" then Project(projects(t[1]).value)
             else if t[0] == "folders" then Folder(t[1]) else Organization(t[1]);
    assert name == t[0] + "/" + t[1] + "/" + "feeds" + "/" + feedID;
  }

  ghost predicate Meaningful(projects: Projects, name: string) {
    exists scope, feedID :: Denotes(projects, name, scope, feedID)
  }

  /** Parsing accepts exactly the names that denote a feed. */
  lemma AcceptedIff(projects: Projects, name: string)
    ensures ParseFeedName(projects, name).Some? <==> Meaningful(projects, name)
  {
    if ParseFeedName(projects, name).Some? {
      var scope, feedID := ParsedIsDenoted(projects, name);
    }
    if Meaningful(projects, name) {
      var scope, feedID :| Denotes(projects, name, scope, feedID);
      DenotedIsParsed(projects, name, scope, feedID);
    }
  }

  // ---------------------------------------------------------------- print and parse

  lemma TokensOfKey(scope: Scope, feedID: string)
    requires NoSlash(feedID) && (scope.Folder? || scope.Organization? ==> NoSlash(scope.id))
    ensures Split(Print(NameFor(scope, feedID))) ==
            match Canonical(scope)
            case Project(number) => ["projects", Decimal(number), "feeds", feedID]
            case Folder(id) => ["folders", id, "feeds", feedID]
            case Organization(id) => ["organizations", id, "feeds", feedID]
  {
    match Canonical(scope)
    case Project(number) => SplitFour("projects", Decimal(number), "feeds", feedID);
    case Folder(id) => SplitFour("folders", id, "feeds", feedID);
    case Organization(id) => SplitFour("organizations", id, "feeds", feedID);
  }

  /** Printing a parsed name and parsing it again gives it back exactly when its scope has an ID, or
      the store happens to know a project number 0. */
  lemma PrintThenParseIff(projects: Projects, name: string, scope: Scope, feedID: string)
    requires KnownByNumber(projects) && Denotes(projects, name, scope, feedID)
    ensures var n := NameFor(scope, feedID);
            ParseFeedName(projects, Print(n)) == Some(n) <==>
            Canonical(scope) == scope || projects("0") == Some(0)
  {
    TokensOfKey(scope, feedID);
    hide Print;
    assert Decimal(0) == "0";
    if scope.Project? {
      var t :| NoSlash(t) && projects(t) == Some(scope.number);
      assert projects(Decimal(projects(t).value)).Some?;
    }
  }

  /** For names whose parent has an ID, parse-then-print is a canonical form. */
  lemma ParseThenPrintIsCanonical(projects: Projects, name: string, scope: Scope, feedID: string)
    requires KnownByNumber(projects) && Denotes(projects, name, scope, feedID) && Canonical(scope) == scope
    ensures ParseFeedName(projects, name).Some?
    ensures var key := Print(ParseFeedName(projects, name).value);
            && Denotes(projects, key, scope, feedID)
            && ParseFeedName(projects, key) == ParseFeedName(projects, name)
            && Print(ParseFeedName(projects, key).value) == key
  {
    DenotedIsParsed(projects, name, scope, feedID);
    PrintThenParseIff(projects, name, scope, feedID);
    if scope.Project? {
      var t :| NoSlash(t) && projects(t) == Some(scope.number);
      assert projects(Decimal(projects(t).value)).Some?;
    }
  }

  /** Two accepted names share a storage key exactly when they denote the same feed of the same
      scope, however the project was named, with an empty parent ID standing for project 0. */
  lemma SameKeyIff(projects: Projects, a: string, sa: Scope, fa: string, b: string, sb: Scope, fb: string)
    requires Denotes(projects, a, sa, fa) && Denotes(projects, b, sb, fb)
    ensures ParseFeedName(projects, a).Some? && ParseFeedName(projects, b).Some?
    ensures Print(ParseFeedName(projects, a).value) == Print(ParseFeedName(projects, b).value) <==>
            Canonical(sa) == Canonical(sb) && fa == fb
  {
    DenotedIsParsed(projects, a, sa, fa);
    DenotedIsParsed(projects, b, sb, fb);
    TokensOfKey(sa, fa);
    TokensOfKey(sb, fb);
    var ka, kb := Print(NameFor(sa, fa)), Print(NameFor(sb, fb));
    if ka == kb {
      assert Split(ka)[0] == Split(kb)[0] && Split(ka)[1] == Split(kb)[1] && Split(ka)[3] == Split(kb)[3];
      if Canonical(sa).Project? {
        DecimalInjective(Canonical(sa).number, Canonical(sb).number);
      }
    }
  }

  /** So a folder and an organization whose IDs are empty collide. */
  lemma EmptyParentsCollide(projects: Projects, feedID: string)
    requires NoSlash(feedID)
    ensures var a := "folders" + "/" + "" + "/" + "feeds" + "/" + feedID;
            var b := "organizations" + "/" + "" + "/" + "feeds" + "/" + feedID;
            && ParseFeedName(projects, a).Some? && ParseFeedName(projects, b).Some? && a != b
            && Print(ParseFeedName(projects, a).value) == Print(ParseFeedName(projects, b).value)
  {
    var a := "folders" + "/" + "" + "/" + "feeds" + "/" + feedID;
    var b := "organizations" + "/" + "" + "/" + "feeds" + "/" + feedID;
    assert Denotes(projects, a, Folder(""), feedID) && Denotes(projects, b, Organization(""), feedID);
    assert a[0] != b[0];
    SameKeyIff(projects, a, Folder(""), feedID, b, Organization(""), feedID);
  }

  // ---------------------------------------------------------------- the handlers

  datatype Feed = Feed(name: string, assetNames: seq<string>, assetTypes: seq<string>)
  datatype Reply = Ok(feed: Feed) | Deleted | InvalidName | NotFound | AlreadyExists

  class FeedServer {
    const projects: Projects
    var storage: map<string, Feed>

    constructor (projects: Projects)
      ensures this.projects == projects && storage == map[]
    {
      this.projects := projects;
      storage := map[];
    }

    method GetFeed(name: string) returns (reply: Reply)
      ensures reply == Lookup(projects, storage, name)
      ensures reply == InvalidName <==> !Meaningful(projects, name)
      ensures reply.Ok? || reply == NotFound || reply == InvalidName
      ensures ParseFeedName(projects, name).Some? ==>
                var key := Print(ParseFeedName(projects, name).value);
                (reply.Ok? <==> key in storage) && (reply.Ok? ==> reply.feed == storage[key])
    {
      AcceptedIff(projects, name);
      var parsed := ParseFeedName(projects, name);
      if parsed.None? {
        return InvalidName;
      }
      var key := Print(parsed.value);
      if key !in storage {
        return NotFound;
      }
      reply := Ok(storage[key]);
    }

    method CreateFeed(parent: string, feedId: string, feed: Feed) returns (reply: Reply)
      modifies this
      ensures reply.Ok? <==> Lookup(projects, old(storage), parent + "/feeds/" + feedId) == NotFound
      ensures reply == InvalidName <==> !Meaningful(projects, parent + "/feeds/" + feedId)
      ensures reply.Ok? || reply == InvalidName || reply == AlreadyExists
      ensures ParseFeedName(projects, parent + "/feeds/" + feedId).Some? ==>
                (reply == AlreadyExists <==> Print(ParseFeedName(projects, parent + "/feeds/" + feedId).value) in old(storage))
      ensures reply.Ok? ==>
                && reply.feed.assetNames == feed.assetNames && reply.feed.assetTypes == feed.assetTypes
                && ParseFeedName(projects, parent + "/feeds/" + feedId).Some?
                && reply.feed.name == Print(ParseFeedName(projects, parent + "/feeds/" + feedId).value)
                && storage == old(storage)[reply.feed.name := reply.feed]
      ensures !reply.Ok? ==> storage == old(storage)
    {
      AcceptedIff(projects, parent + "/feeds/" + feedId);
      var parsed := ParseFeedName(projects, parent + "/feeds/" + feedId);
      if parsed.None? {
        return InvalidName;
      }
      var key := Print(parsed.value);
      if key in storage {
        return AlreadyExists;
      }
      var stored := feed.(name := key);
      storage := storage[key := stored];
      reply := Ok(stored);
    }

    method DeleteFeed(name: string) returns (reply: Reply)
      modifies this
      ensures reply == Deleted <==> Lookup(projects, old(storage), name).Ok?
      ensures reply == InvalidName <==> !Meaningful(projects, name)
      ensures ParseFeedName(projects, name).Some? ==>
                (reply == Deleted <==> Print(ParseFeedName(projects, name).value) in old(storage))
      ensures reply == Deleted ==>
                && ParseFeedName(projects, name).Some?
                && storage == old(storage) - {Print(ParseFeedName(projects, name).value)}
      ensures reply != Deleted ==> storage == old(storage) && reply == Lookup(projects, old(storage), name)
    {
      AcceptedIff(projects, name);
      var parsed := ParseFeedName(projects, name);
      if parsed.None? {
        return InvalidName;
      }
      var key := Print(parsed.value);
      if key !in storage {
        return NotFound;
      }
      storage := storage - {key};
      reply := Deleted;
    }
  }

  function Lookup(projects: Projects, storage: map<string, Feed>, name: string): Reply {
    var parsed := ParseFeedName(projects, name);
    if parsed.None? then InvalidName
    else if Print(parsed.value) in storage then Ok(storage[Print(parsed.value)])
    else NotFound
  }

  /** After storing a feed under one name, another name sees that change exactly when it denotes the
      same feed; every other name sees what it saw before. */
  lemma StoredUnderOneNameSeenUnder(projects: Projects, storage: map<string, Feed>, feed: Feed,
                                    a: string, sa: Scope, fa: string, b: string, sb: Scope, fb: string)
    requires Denotes(projects, a, sa, fa) && Denotes(projects, b, sb, fb)
    requires Lookup(projects, storage, a) == NotFound
    ensures ParseFeedName(projects, a).Some?
    ensures var key := Print(ParseFeedName(projects, a).value);
            var seen := Lookup(projects, storage[key := feed], b);
            if Canonical(sa) == Canonical(sb) && fa == fb then seen == Ok(feed) else seen == Lookup(projects, storage, b)
  {
    SameKeyIff(projects, a, sa, fa, b, sb, fb);
  }
}
