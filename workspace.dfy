/** The Contoso University architecture model that `Main` assembles: the
    staff member, the system and its two containers, the relationships wired
    from the web application's components by technology, the source links
    on those components, and the Database tag with its style. */
module ContosoWorkspace {
  import opened SourceLinks

  datatype Option<T> = None | Some(value: T)

  /** Technology labels given by the two type matchers. */
  const MvcController: string := "ASP.NET MVC Controller"
  const DbContext: string := "Entity Framework DbContext"

  /** Descriptions of the two wired relationships. */
  const StaffUsesDescription: string := "uses"
  const ReadsAndWritesDescription: string := "Reads from and writes to"

  /** The actor and the system declared at the start of the model. */
  const UniversityStaff: ElementId := Person("University Staff")
  const ContosoUniversity: ElementId := SoftwareSystem("Contoso University")

  /** The tag placed on the database container and the style keyed by it. */
  const DatabaseTag: string := "Database"

  /** A discovered component; `sourcePath` is `None` where the scan found no file. */
  datatype Component = Component(name: string, technology: string, sourcePath: Option<string>)

  /** The element an edge starts or ends at, identified by kind and name. */
  datatype ElementId =
    | Person(name: string)
    | SoftwareSystem(name: string)
    | ContainerElement(name: string)
    | ComponentElement(name: string)

  datatype Relationship = Relationship(
    source: ElementId, destination: ElementId, description: string, technology: Option<string>)

  datatype Shape = Box | Cylinder | PersonShape

  datatype ElementStyle = ElementStyle(tag: string, shape: Option<Shape>)

  /** `FindAll(c => c.Technology == technology)`: the components carrying
      that label, each as often as it occurs, in their original order. */
  function WithTechnology(cs: seq<Component>, technology: string): (r: seq<Component>)
    ensures |r| <= |cs|
  {
    if cs == [] then []
    else
      var last := cs[|cs| - 1];
      WithTechnology(cs[..|cs| - 1], technology) + (if last.technology == technology then [last] else [])
  }

  /** One `source` to component edge per target, in the targets' order. */
  function UsedBy(source: ElementId, targets: seq<Component>, description: string): (r: seq<Relationship>)
    ensures |r| == |targets|
  {
    if targets == [] then []
    else
      UsedBy(source, targets[..|targets| - 1], description)
        + [Relationship(source, ComponentElement(targets[|targets| - 1].name), description, None)]
  }

  /** One component to `destination` edge per source, in the sources' order. */
  function Using(sources: seq<Component>, destination: ElementId, description: string): (r: seq<Relationship>)
    ensures |r| == |sources|
  {
    if sources == [] then []
    else
      Using(sources[..|sources| - 1], destination, description)
        + [Relationship(ComponentElement(sources[|sources| - 1].name), destination, description, None)]
  }

  /** The edges the two wiring statements append, controllers first. A
      component carries one label, so it is wired at most once. */
  function Wiring(staff: ElementId, database: ElementId, cs: seq<Component>): (r: seq<Relationship>)
    ensures |r| <= |cs|
  {
    WithTechnologyDisjoint(cs, MvcController, DbContext);
    UsedBy(staff, WithTechnology(cs, MvcController), StaffUsesDescription)
      + Using(WithTechnology(cs, DbContext), database, ReadsAndWritesDescription)
  }

  /** A component after the source-link step: only its path changes, and
      only when it has one. */
  function LinkToSource(c: Component): (d: Component)
    ensures d.name == c.name && d.technology == c.technology
    ensures c.sourcePath.None? ==> d == c
    ensures c.sourcePath.Some? ==> d.sourcePath.Some? && '\\' !in d.sourcePath.value
  {
    match c.sourcePath
    case None => c
    case Some(p) => c.(sourcePath := Some(RewriteSourcePath(p)))
  }

  /** The registered styles that apply to an element with these tags. */
  function StylesFor(tags: set<string>, styles: seq<ElementStyle>): (r: seq<ElementStyle>)
    ensures forall s :: s in r <==> s in styles && s.tag in tags
  {
    if styles == [] then []
    else
      var last := styles[|styles| - 1];
      assert styles == styles[..|styles| - 1] + [last];
      StylesFor(tags, styles[..|styles| - 1]) + (if last.tag in tags then [last] else [])
  }

  /** A container of the software system, with its tags and the
      components discovered inside it. */
  class Container {
    const name: string
    const technology: string
    var tags: set<string>
    var components: seq<Component>

    constructor (name: string, technology: string)
      ensures this.name == name && this.technology == technology
      ensures tags == {} && components == []
    {
      this.name := name;
      this.technology := technology;
      tags := {};
      components := [];
    }

    function Id(): (id: ElementId)
    {
      ContainerElement(name)
    }

    method AddTags(tag: string)
      modifies this
      ensures tags == old(tags) + {tag}
      ensures components == old(components)
    {
      tags := tags + {tag};
    }
  }

  /** The model's relationship list. */
  class Model {
    var relationships: seq<Relationship>

    constructor ()
      ensures relationships == []
    {
      relationships := [];
    }

    /** `source.Uses(destination, description[, technology])`: one more edge. */
    method Uses(source: ElementId, destination: ElementId, description: string, technology: Option<string>)
      modifies this
      ensures relationships == old(relationships) + [Relationship(source, destination, description, technology)]
    {
      relationships := relationships + [Relationship(source, destination, description, technology)];
    }
  }

  /** The element styles registered with the views' configuration. */
  class Styles {
    var elements: seq<ElementStyle>

    constructor ()
      ensures elements == []
    {
      elements := [];
    }

    method Add(style: ElementStyle)
      modifies this
      ensures elements == old(elements) + [style]
    {
      elements := elements + [style];
    }
  }

  /** `FindAll(c => c.Technology == technology).ForEach(c => user.Uses(c, description))`:
      the user gets one edge to each component with that label. */
  method WireUserToComponents(
    model: Model, user: ElementId, webApplication: Container, technology: string, description: string)
    modifies model
    ensures model.relationships == old(model.relationships)
      + UsedBy(user, WithTechnology(webApplication.components, technology), description)
  {
    ghost var before := model.relationships;
    var cs := webApplication.components;
    var i := 0;
    while i < |cs|
      invariant 0 <= i <= |cs|
      invariant model.relationships == before + UsedBy(user, WithTechnology(cs[..i], technology), description)
    {
      UsedByStep(before, user, cs, i, technology, description);
      if cs[i].technology == technology {
        model.Uses(user, ComponentElement(cs[i].name), description, None);
      }
      i := i + 1;
    }
    assert cs[..|cs|] == cs;
  }

  /** `FindAll(c => c.Technology == technology).ForEach(c => c.Uses(destination, description))`:
      each component with that label gets one edge to the destination. */
  method WireComponentsToElement(
    model: Model, webApplication: Container, technology: string, destination: ElementId, description: string)
    modifies model
    ensures model.relationships == old(model.relationships)
      + Using(WithTechnology(webApplication.components, technology), destination, description)
  {
    ghost var before := model.relationships;
    var cs := webApplication.components;
    var i := 0;
    while i < |cs|
      invariant 0 <= i <= |cs|
      invariant model.relationships == before + Using(WithTechnology(cs[..i], technology), destination, description)
    {
      UsingStep(before, cs, i, technology, destination, description);
      if cs[i].technology == technology {
        model.Uses(ComponentElement(cs[i].name), destination, description, None);
      }
      i := i + 1;
    }
    assert cs[..|cs|] == cs;
  }

  /** Rewrites, in place, the source path of every component that has one. */
  method LinkComponentsToSource(webApplication: Container)
    modifies webApplication
    ensures webApplication.tags == old(webApplication.tags)
    ensures |webApplication.components| == |old(webApplication.components)|
    ensures forall i :: 0 <= i < |webApplication.components| ==>
      webApplication.components[i] == LinkToSource(old(webApplication.components)[i])
  {
    var i := 0;
    while i < |webApplication.components|
      invariant 0 <= i <= |webApplication.components| == |old(webApplication.components)|
      invariant webApplication.tags == old(webApplication.tags)
      invariant forall k :: 0 <= k < i ==>
        webApplication.components[k] == LinkToSource(old(webApplication.components)[k])
      invariant forall k :: i <= k < |webApplication.components| ==>
        webApplication.components[k] == old(webApplication.components)[k]
    {
      var component := webApplication.components[i];
      if component.sourcePath != None {
        var path := ReplaceAll(component.sourcePath.value, LocalRoot, RemoteRoot);
        path := ReplaceChar(path, '\\', '/');
        webApplication.components := webApplication.components[i := component.(sourcePath := Some(path))];
      }
      i := i + 1;
    }
  }

  /** The assembly `Main` performs before views, styles of the standard
      element kinds and the upload; `discovered` stands for what the
      component finder put into the web application. */
  method CreateWorkspace(discovered: seq<Component>)
    returns (model: Model, webApplication: Container, database: Container, styles: Styles)
    ensures fresh(model) && fresh(webApplication) && fresh(database) && fresh(styles)
    ensures model.relationships ==
      [ Relationship(UniversityStaff, ContosoUniversity, "uses", None),
        Relationship(UniversityStaff, webApplication.Id(), "Uses", Some("HTTPS")) ]
      + Wiring(UniversityStaff, database.Id(), discovered)
    ensures |webApplication.components| == |discovered|
    ensures forall i :: 0 <= i < |discovered| ==> webApplication.components[i] == LinkToSource(discovered[i])
    ensures webApplication.name == "Web Application" && database.name == "Database"
    ensures database.tags == {DatabaseTag}
    ensures ElementStyle(DatabaseTag, Some(Cylinder)) in StylesFor(database.tags, styles.elements)
  {
    model := new Model();
    styles := new Styles();
    model.Uses(UniversityStaff, ContosoUniversity, "uses", None);

    webApplication := new Container("Web Application", "Microsoft ASP.NET MVC");
    database := new Container("Database", "Microsoft SQL Server Express LocalDB");
    database.AddTags(DatabaseTag);
    model.Uses(UniversityStaff, webApplication.Id(), "Uses", Some("HTTPS"));
    ghost var setup := model.relationships;
    assert setup == [ Relationship(UniversityStaff, ContosoUniversity, "uses", None),
                      Relationship(UniversityStaff, webApplication.Id(), "Uses", Some("HTTPS")) ];

    // the component finder's result
    webApplication.components := discovered;

    // wire up the staff to the MVC controllers, and the DbContexts to the database
    WireUserToComponents(model, UniversityStaff, webApplication, MvcController, StaffUsesDescription);
    WireComponentsToElement(model, webApplication, DbContext, database.Id(), ReadsAndWritesDescription);
    ConcatAssociates(setup,
      UsedBy(UniversityStaff, WithTechnology(discovered, MvcController), StaffUsesDescription),
      Using(WithTechnology(discovered, DbContext), database.Id(), ReadsAndWritesDescription));
    LinkComponentsToSource(webApplication);

    styles.Add(ElementStyle(DatabaseTag, Some(Cylinder)));
  }

  /** One iteration of the loop in `WireUserToComponents`. */
  lemma UsedByStep(
    before: seq<Relationship>, user: ElementId, cs: seq<Component>, i: int, technology: string, description: string)
    requires 0 <= i < |cs|
    ensures cs[i].technology == technology ==>
      before + UsedBy(user, WithTechnology(cs[..i + 1], technology), description)
      == (before + UsedBy(user, WithTechnology(cs[..i], technology), description))
         + [Relationship(user, ComponentElement(cs[i].name), description, None)]
    ensures cs[i].technology != technology ==>
      before + UsedBy(user, WithTechnology(cs[..i + 1], technology), description)
      == before + UsedBy(user, WithTechnology(cs[..i], technology), description)
  {
    var done := WithTechnology(cs[..i], technology);
    WithTechnologySnoc(cs, i, technology);
    if cs[i].technology == technology {
      var edge := Relationship(user, ComponentElement(cs[i].name), description, None);
      UsedBySnoc(user, done, cs[i], description);
      ConcatAssociates(before, UsedBy(user, done, description), [edge]);
    } else {
      assert done + [] == done;
    }
  }

  /** One iteration of the loop in `WireComponentsToElement`. */
  lemma UsingStep(
    before: seq<Relationship>, cs: seq<Component>, i: int, technology: string, destination: ElementId, description: string)
    requires 0 <= i < |cs|
    ensures cs[i].technology == technology ==>
      before + Using(WithTechnology(cs[..i + 1], technology), destination, description)
      == (before + Using(WithTechnology(cs[..i], technology), destination, description))
         + [Relationship(ComponentElement(cs[i].name), destination, description, None)]
    ensures cs[i].technology != technology ==>
      before + Using(WithTechnology(cs[..i + 1], technology), destination, description)
      == before + Using(WithTechnology(cs[..i], technology), destination, description)
  {
    var done := WithTechnology(cs[..i], technology);
    WithTechnologySnoc(cs, i, technology);
    if cs[i].technology == technology {
      var edge := Relationship(ComponentElement(cs[i].name), destination, description, None);
      UsingSnoc(done, cs[i], destination, description);
      ConcatAssociates(before, Using(done, destination, description), [edge]);
    } else {
      assert done + [] == done;
    }
  }

  lemma ConcatAssociates<T>(a: seq<T>, b: seq<T>, c: seq<T>)
    ensures (a + b) + c == a + (b + c)
  {
  }

  lemma WithTechnologySnoc(cs: seq<Component>, i: int, technology: string)
    requires 0 <= i < |cs|
    ensures WithTechnology(cs[..i + 1], technology)
         == WithTechnology(cs[..i], technology) + (if cs[i].technology == technology then [cs[i]] else [])
  {
    assert cs[..i + 1][..i] == cs[..i];
  }

  lemma UsedBySnoc(source: ElementId, targets: seq<Component>, c: Component, description: string)
    ensures UsedBy(source, targets + [c], description)
         == UsedBy(source, targets, description) + [Relationship(source, ComponentElement(c.name), description, None)]
  {
    assert (targets + [c])[..|targets|] == targets;
  }

  lemma UsingSnoc(sources: seq<Component>, c: Component, destination: ElementId, description: string)
    ensures Using(sources + [c], destination, description)
         == Using(sources, destination, description) + [Relationship(ComponentElement(c.name), destination, description, None)]
  {
    assert (sources + [c])[..|sources|] == sources;
  }

  /** `FindAll` keeps each component with the label exactly as often as it
      occurs, and drops every other one. */
  lemma {:induction false} WithTechnologyCount(cs: seq<Component>, technology: string, c: Component)
    ensures multiset(WithTechnology(cs, technology))[c]
         == if c.technology == technology then multiset(cs)[c] else 0
  {
    if cs != [] {
      var init, last := cs[..|cs| - 1], cs[|cs| - 1];
      assert cs == init + [last];
      WithTechnologyCount(init, technology, c);
    }
  }

  /** `UsedBy` has one edge per target, the i-th pointing at the i-th target. */
  lemma {:induction false} UsedByAt(source: ElementId, targets: seq<Component>, description: string)
    ensures |UsedBy(source, targets, description)| == |targets|
    ensures forall i :: 0 <= i < |targets| ==>
      UsedBy(source, targets, description)[i] == Relationship(source, ComponentElement(targets[i].name), description, None)
  {
    if targets != [] {
      UsedByAt(source, targets[..|targets| - 1], description);
    }
  }

  /** `Using` has one edge per source, the i-th leaving the i-th source. */
  lemma {:induction false} UsingAt(sources: seq<Component>, destination: ElementId, description: string)
    ensures |Using(sources, destination, description)| == |sources|
    ensures forall i :: 0 <= i < |sources| ==>
      Using(sources, destination, description)[i] == Relationship(ComponentElement(sources[i].name), destination, description, None)
  {
    if sources != [] {
      UsingAt(sources[..|sources| - 1], destination, description);
    }
  }

  /** An edge is in `UsedBy` exactly when it goes from `source` to one of the targets. */
  lemma InUsedBy(source: ElementId, targets: seq<Component>, description: string, r: Relationship)
    ensures r in UsedBy(source, targets, description) <==>
      exists c :: c in targets && r == Relationship(source, ComponentElement(c.name), description, None)
  {
    var es := UsedBy(source, targets, description);
    UsedByAt(source, targets, description);
    if r in es {
      var i :| 0 <= i < |es| && es[i] == r;
      assert targets[i] in targets;
    }
    if c :| c in targets && r == Relationship(source, ComponentElement(c.name), description, None) {
      var i :| 0 <= i < |targets| && targets[i] == c;
      assert es[i] == r;
    }
  }

  /** An edge is in `Using` exactly when it goes from one of the sources to `destination`. */
  lemma InUsing(sources: seq<Component>, destination: ElementId, description: string, r: Relationship)
    ensures r in Using(sources, destination, description) <==>
      exists c :: c in sources && r == Relationship(ComponentElement(c.name), destination, description, None)
  {
    var es := Using(sources, destination, description);
    UsingAt(sources, destination, description);
    if r in es {
      var i :| 0 <= i < |es| && es[i] == r;
      assert sources[i] in sources;
    }
    if c :| c in sources && r == Relationship(ComponentElement(c.name), destination, description, None) {
      var i :| 0 <= i < |sources| && sources[i] == c;
      assert es[i] == r;
    }
  }

  /** A component is selected exactly when it is in the list with that label. */
  lemma InWithTechnology(cs: seq<Component>, technology: string, c: Component)
    ensures c in WithTechnology(cs, technology) <==> c in cs && c.technology == technology
  {
    WithTechnologyCount(cs, technology, c);
    assert c in WithTechnology(cs, technology) <==> multiset(WithTechnology(cs, technology))[c] > 0;
    assert c in cs <==> multiset(cs)[c] > 0;
  }

  /** The wiring adds exactly a staff edge per controller and a database
      edge per DbContext, and nothing else. */
  lemma WiringExact(staff: ElementId, database: ElementId, cs: seq<Component>, r: Relationship)
    ensures r in Wiring(staff, database, cs) <==>
      || (exists c :: c in cs && c.technology == MvcController &&
            r == Relationship(staff, ComponentElement(c.name), StaffUsesDescription, None))
      || (exists c :: c in cs && c.technology == DbContext &&
            r == Relationship(ComponentElement(c.name), database, ReadsAndWritesDescription, None))
  {
    var controllers := WithTechnology(cs, MvcController);
    var contexts := WithTechnology(cs, DbContext);
    InUsedBy(staff, controllers, StaffUsesDescription, r);
    InUsing(contexts, database, ReadsAndWritesDescription, r);
    forall c ensures c in controllers <==> c in cs && c.technology == MvcController {
      InWithTechnology(cs, MvcController, c);
    }
    forall c ensures c in contexts <==> c in cs && c.technology == DbContext {
      InWithTechnology(cs, DbContext, c);
    }
  }

  /** A component name carried by no controller and no DbContext appears
      on no wired edge. */
  lemma UnmatchedComponentGetsNoEdge(staff: ElementId, database: ElementId, cs: seq<Component>, name: string)
    requires !staff.ComponentElement? && !database.ComponentElement?
    requires forall c :: c in cs && c.name == name ==>
      c.technology != MvcController && c.technology != DbContext
    ensures forall r :: r in Wiring(staff, database, cs) ==>
      r.source != ComponentElement(name) && r.destination != ComponentElement(name)
  {
    forall r | r in Wiring(staff, database, cs)
      ensures r.source != ComponentElement(name) && r.destination != ComponentElement(name)
    {
      WiringExact(staff, database, cs, r);
    }
  }

  /** Two different labels select, together, no more components than there are. */
  lemma {:induction false} WithTechnologyDisjoint(cs: seq<Component>, a: string, b: string)
    requires a != b
    ensures |WithTechnology(cs, a)| + |WithTechnology(cs, b)| <= |cs|
  {
    if cs != [] {
      WithTechnologyDisjoint(cs[..|cs| - 1], a, b);
    }
  }

  /** Selection keeps component order: it distributes over concatenation. */
  lemma {:induction false} WithTechnologyAppend(a: seq<Component>, b: seq<Component>, technology: string)
    ensures WithTechnology(a + b, technology) == WithTechnology(a, technology) + WithTechnology(b, technology)
    decreases |b|
  {
    if b != [] {
      var last := b[|b| - 1];
      assert (a + b)[..|a + b| - 1] == a + b[..|b| - 1];
      WithTechnologyAppend(a, b[..|b| - 1], technology);
    } else {
      assert a + b == a;
    }
  }

  /** Linking a component a second time changes nothing. */
  lemma LinkToSourceIdempotent(c: Component)
    ensures LinkToSource(LinkToSource(c)) == LinkToSource(c)
  {
    if c.sourcePath.Some? {
      RewriteIdempotent(c.sourcePath.value);
    }
  }
}
