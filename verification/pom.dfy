/**
 * The part of a Maven project object model that version patching reads and
 * writes. Every optional field stands for a Go pointer (or map) that may be
 * nil; every other part of the project is carried through untouched and is
 * not modelled.
 */
module Pom {
  import opened Wrappers

  /** One `<dependency>`; its three coordinates are always present. */
  datatype Dependency = Dependency(groupId: string, artifactId: string, version: string)

  /** `<dependencyManagement>`; its list is itself behind a pointer that may be nil. */
  datatype DependencyManagement = DependencyManagement(dependencies: Option<seq<Dependency>>)

  /** `<properties>`; a nil entry map reads as empty but cannot be written to. */
  datatype Properties = Properties(entries: Option<map<string, string>>)

  datatype Project = Project(
    dependencies: Option<seq<Dependency>>,
    dependencyManagement: Option<DependencyManagement>,
    properties: Option<Properties>)

  /** The entries of an optional list, a nil list having none. */
  function ListOf(deps: Option<seq<Dependency>>): seq<Dependency> {
    if deps.Some? then deps.value else []
  }

  /** The entries of the dependency-management list, an absent section having none. */
  function ManagedListOf(section: Option<DependencyManagement>): seq<Dependency> {
    if section.Some? then ListOf(section.value.dependencies) else []
  }

  /** The section is present but its list pointer is nil. */
  predicate HasNilManagedList(p: Project) {
    p.dependencyManagement.Some? && p.dependencyManagement.value.dependencies.None?
  }
}
