# Contoso University architecture model, verified

The Contoso University program builds a Structurizr software architecture
model of the Contoso University sample application. It declares a staff
member, the Contoso University system and its two containers, the web
application and the database. It then lets a component finder discover the
web application's components. Three self-contained steps follow, and they
are the subject of this project:

- **Relationship wiring by technology.** Every component whose technology
  is `"ASP.NET MVC Controller"` is used by the staff member ("uses"). Every
  component whose technology is `"Entity Framework DbContext"` uses the
  database ("Reads from and writes to"). Each match appends one edge, in
  component order.
- **Source links.** Every component with a source path has that path
  rewritten. First, each occurrence of the local checkout root
  `C:\Users\simon\ContosoUniversity\` becomes
  `https://github.com/simonbrowndotje/ContosoUniversity/blob/master/`. Then
  each `\` becomes `/`. Both steps use ordinal .NET `String.Replace`
  semantics: all non-overlapping occurrences, left to right. The first step
  is not a prefix replacement. Components without a source path are left
  alone.
- **Database tag and style.** The database container carries the tag
  `"Database"`, and a cylinder style keyed by `"Database"` is registered.
  A renderer that styles by tag therefore finds that style for the database.

Files:

- `source_links.dfy` (module `SourceLinks`) holds the pure string rewrite.
  `ReplaceAll` models `String.Replace(string, string)`, `ReplaceChar`
  models `String.Replace(char, char)`, and `RewriteSourcePath` is the two
  calls chained in the source's order. Lemmas about them follow.
- `workspace.dfy` (module `ContosoWorkspace`) holds the rest.
  - Components are records `{name, technology, sourcePath}`.
  - The web application and the database are `Container` objects. Their
    `components` and `tags` fields are updated in place.
  - The model's relationship list is an append-only `seq` in the class
    `Model`. Its `Uses` method appends one edge.
  - The two wiring statements and the rewrite loop are methods with loops.
    Each is proved equal to a specification function:
    `UsedBy`/`Using` over `WithTechnology` for wiring, and `LinkToSource`
    applied to every component for the rewrite.
  - `CreateWorkspace` runs the steps of `Main` in order. It takes the
    component finder's result as its parameter `discovered`.

The first step of the source-link rewrite replaces every occurrence of the
local root, not only a leading one, so a path holding the root a second
time gets the remote root there too (`RewriteRootPrefix`, `FirstOccurrence`).

## Model

| member | source | states |
|---|---|---|
| `SourceLinks.ReplaceAll` | Structurizr/Structurizr.cs:58 | every character of the result comes from the input or from the replacement text |
| `SourceLinks.ReplaceChar` | Structurizr/Structurizr.cs:59 | the length is unchanged; each `from` becomes `to` and every other character stays in place; with `from != to`, no `from` remains |
| `SourceLinks.RewriteSourcePath` | Structurizr/Structurizr.cs:58-59 | a rewritten path contains no `\`; every character other than `/` comes from the original path or from the remote root |
| `SourceLinks.ReplaceAllWithoutOccurrence` | Structurizr/Structurizr.cs:58 | a string with no occurrence of the pattern is returned unchanged |
| `SourceLinks.NoRootWithoutBackslash` | Structurizr/Structurizr.cs:58 | a string without `\` cannot contain the local root |
| `SourceLinks.FirstOccurrence` | Structurizr/Structurizr.cs:58 | when the leftmost occurrence of the pattern starts at `j`, the result is the first `j` characters unchanged, then the replacement, then the replacement of everything after that occurrence |
| `SourceLinks.ReplaceRootThenNormalize` | Structurizr/Structurizr.cs:58-59 | for any root and any replacement without `\`, rewriting `root + rest` gives the replacement followed by the rewrite of `rest` |
| `SourceLinks.RewriteRootPrefix` | Structurizr/Structurizr.cs:58-59 | for every `rest`, a path `LocalRoot + rest` becomes the GitHub root followed by the rewrite of `rest` (so a second copy of the root in `rest` is linked too) |
| `SourceLinks.RewriteUnderRoot` | Structurizr/Structurizr.cs:58-59 | a path under the local root whose rest holds no second copy of the root becomes the GitHub root followed by the rest with forward slashes |
| `SourceLinks.RewriteExample` | Structurizr/Structurizr.cs:58-59 | `C:\Users\simon\ContosoUniversity\Foo\Bar.cs` becomes `https://github.com/simonbrowndotje/ContosoUniversity/blob/master/Foo/Bar.cs` |
| `SourceLinks.RewriteOutsideRoot` | Structurizr/Structurizr.cs:58-59 | a path that does not contain the local root only has `\` turned into `/`: same length, every other character kept |
| `SourceLinks.SwappedStepsMissRoot` | Structurizr/Structurizr.cs:58-59 | with the two steps swapped, the root never matches, so the path is only normalised; for a path under the root the swapped result differs from the real one |
| `SourceLinks.RewriteIdempotent` | Structurizr/Structurizr.cs:58-59 | rewriting an already rewritten path changes nothing |
| `ContosoWorkspace.WithTechnology` | Structurizr/Structurizr.cs:48-51 | the `FindAll` filter on technology: it selects no more components than there are; which ones, how often and in what order is stated by `WithTechnologyCount`, `InWithTechnology` and `WithTechnologyAppend` |
| `ContosoWorkspace.UsedBy` | Structurizr/Structurizr.cs:48 | the `ForEach(c => user.Uses(c, …))` edges: exactly one edge per target |
| `ContosoWorkspace.Using` | Structurizr/Structurizr.cs:51 | the `ForEach(c => c.Uses(database, …))` edges: exactly one edge per source |
| `ContosoWorkspace.Wiring` | Structurizr/Structurizr.cs:48-51 | the two wiring statements together, controllers first; since a component carries one label, there are at most as many edges as components |
| `ContosoWorkspace.WithTechnologyDisjoint` | Structurizr/Structurizr.cs:48-51 | two different labels together select no more components than there are |
| `ContosoWorkspace.LinkToSource` | Structurizr/Structurizr.cs:56-60 | name and technology are kept; a component without a source path is unchanged; one with a path keeps a path, and that path has no `\` |
| `ContosoWorkspace.LinkToSourceIdempotent` | Structurizr/Structurizr.cs:54-61 | linking a component twice gives the same result as linking it once |
| `ContosoWorkspace.LinkComponentsToSource` | Structurizr/Structurizr.cs:54-61 | the loop rewrites the container's components in place; the count and order stay the same, and the i-th component becomes `LinkToSource` of the old i-th one; tags are unchanged |
| `ContosoWorkspace.WithTechnologyCount` | Structurizr/Structurizr.cs:48 | the filter keeps each component with the label exactly as many times as it occurs, and drops every component with another label |
| `ContosoWorkspace.InWithTechnology` | Structurizr/Structurizr.cs:51 | a component is selected exactly when it is in the container and carries the label |
| `ContosoWorkspace.WithTechnologyAppend` | Structurizr/Structurizr.cs:48 | filtering distributes over concatenation, so matches come out in component order |
| `ContosoWorkspace.UsedByAt` | Structurizr/Structurizr.cs:48 | there is one edge per selected component; the i-th edge goes from the user to the i-th selected component |
| `ContosoWorkspace.UsingAt` | Structurizr/Structurizr.cs:51 | there is one edge per selected component; the i-th edge goes from the i-th selected component to the destination |
| `ContosoWorkspace.InUsedBy` | Structurizr/Structurizr.cs:48 | an edge is among the user's edges exactly when it goes from the user to one of the targets |
| `ContosoWorkspace.InUsing` | Structurizr/Structurizr.cs:51 | an edge is among the components' edges exactly when it goes from one of the sources to the destination |
| `ContosoWorkspace.WireUserToComponents` | Structurizr/Structurizr.cs:48 | the loop appends exactly `UsedBy(user, WithTechnology(components, technology), description)` to the relationships |
| `ContosoWorkspace.WireComponentsToElement` | Structurizr/Structurizr.cs:51 | the loop appends exactly `Using(WithTechnology(components, technology), destination, description)` to the relationships |
| `ContosoWorkspace.WiringExact` | Structurizr/Structurizr.cs:48-51 | an edge is added by wiring exactly when it is staff → controller "uses" or DbContext → database "Reads from and writes to" (both directions of the equivalence) |
| `ContosoWorkspace.UnmatchedComponentGetsNoEdge` | Structurizr/Structurizr.cs:48-51 | a component name carried by neither label starts or ends no wired edge |
| `ContosoWorkspace.StylesFor` | Structurizr/Structurizr.cs:76 | a style applies to an element exactly when it is registered and its tag is one of the element's tags |
| `ContosoWorkspace.Container.AddTags` | Structurizr/Structurizr.cs:33 | the tag joins the container's tags; components are unchanged |
| `ContosoWorkspace.Model.Uses` | Structurizr/Structurizr.cs:34 | exactly one edge is appended |
| `ContosoWorkspace.Styles.Add` | Structurizr/Structurizr.cs:76 | exactly one style is appended |
| `ContosoWorkspace.CreateWorkspace` | Structurizr/Structurizr.cs:25-76 | the relationships are staff → system, staff → web application (HTTPS), then the wiring edges; every discovered component is linked to its source, in the same order; the containers are named "Web Application" and "Database"; the database is tagged "Database" and its tags select the cylinder style |

## Left out

- Component discovery (`ComponentFinder`, `AssemblyScanningComponentFinderStrategy`, `InterfaceImplementationTypeMatcher`, `ExtendsClassTypeMatcher`, `TypeSummaryComponentFinderStrategy`, lines 36-45) runs inside the Structurizr library, using reflection and a solution file on disk. That library is not part of this model. Its result becomes the parameter `discovered` of `CreateWorkspace`.
- `AddPerson`, `AddSoftwareSystem`, `AddContainer` and `Uses` are library calls, and their uniqueness and deduplication rules cannot be seen. Here `Uses` always appends one edge, and elements are identified by kind and name.
- Element descriptions are not modelled. Neither are the default tags the library gives every container; a new container starts with no tags.
- `webApplication.Components` is a set in the library, so its iteration order is library-defined. The model iterates a sequence in a fixed order.
- Components are records stored in a sequence, not shared objects. Aliasing between component references is therefore not modelled.
- `ReplaceAll` requires a non-empty pattern. .NET throws an argument exception for an empty one, and the source only ever passes the constant root.
- Views (`CreateContextView`, `CreateContainerView`, `CreateComponentView`, `AddAllElements`, lines 63-70) are not modelled, because their snapshot behaviour is defined by the library. The metadata setting at line 22 is left out as well.
- The styles for the Person, Software System, Container and Component tags (lines 73-75 and 77) are left out: they use library tag constants and carry no logic. Colours are not modelled either. Only the Database style's tag and shape are kept.
- `StructurizrClient.MergeWorkspace` (lines 79-80) is network I/O with credentials, and `Console.ReadKey` (line 82) is console I/O. Neither is modelled.
