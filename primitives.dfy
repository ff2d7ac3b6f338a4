/** The utilities the policy engine calls but does not define (they live in
    the toolset's shared library): the path and domain grammar checks, the
    glob-style matcher, and the whitespace normaliser. They are left
    uninterpreted: every result of the model holds for every choice of them,
    unless a lemma says which property of them it needs. */
module Primitives {

  datatype Env = Env(
    /** is_correct_domain(name) */
    isCorrectDomain: string -> bool,
    /** is_correct_path(name, 1, 0, -1): a program name, no pattern allowed */
    isProgramPath: string -> bool,
    /** is_correct_path(name, 1, -1, -1): a single path used as a last-name scope */
    isLastNamePath: string -> bool,
    /** is_correct_path(name, 0, 0, 0): a group name or member */
    isGroupToken: string -> bool,
    /** is_domain_def(line): the line names a domain */
    isDomainDef: string -> bool,
    /** the `is_patterned` flag fill_path_info computes */
    isPatterned: string -> bool,
    /** path_matches_pattern(path, pattern) */
    pathMatchesPattern: (string, string) -> bool,
    /** normalize_line(line) */
    normalizeLine: string -> string
  )

  /** The name of the root domain. */
  const ROOT_NAME: string := "<kernel>"

  /** Every line `is_domain_def` accepts begins with the root domain's name;
      the only property of the external grammar check some lemmas rely on. */
  ghost predicate DomainDefsStartAtRoot(env: Env)
  {
    forall s :: env.isDomainDef(s) ==> |ROOT_NAME| <= |s| && s[..|ROOT_NAME|] == ROOT_NAME
  }
}
