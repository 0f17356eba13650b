/**
 * The two match tests of policy selection: the resource-name glob and the
 * subject filter.
 */
module Matching {
  import opened Wrappers
  import opened Json
  import opened Dict
  import opened Models

  /** The characters a regular expression's `.` does not match. */
  predicate IsLineTerminator(c: char) {
    c == '\n' || c == '\r' || c == '\U{2028}' || c == '\U{2029}'
  }

  predicate NoLineTerminator(s: string) {
    forall i :: 0 <= i < |s| ==> !IsLineTerminator(s[i])
  }

  /**
   * `matchPattern`: the pattern, with its regular-expression metacharacters
   * escaped and each `*` turned into `.*`, anchored at both ends. So every
   * character but `*` stands for itself, and `*` stands for any run of
   * characters other than line terminators.
   */
  predicate GlobMatch(pattern: string, value: string)
    decreases |pattern| + |value|
  {
    if pattern == [] then value == []
    else if pattern[0] == '*' then
      || GlobMatch(pattern[1..], value)
      || (value != [] && !IsLineTerminator(value[0]) && GlobMatch(pattern, value[1..]))
    else value != [] && value[0] == pattern[0] && GlobMatch(pattern[1..], value[1..])
  }

  /** A pattern without `*` matches exactly the name equal to it. */
  lemma {:induction false} LiteralPattern(pattern: string, value: string)
    requires '*' !in pattern
    ensures GlobMatch(pattern, value) <==> value == pattern
  {
    if pattern != [] && value != [] {
      assert '*' !in pattern[1..] by {
        forall i | 0 <= i < |pattern[1..]| ensures pattern[1..][i] != '*' {
          assert pattern[1..][i] == pattern[i + 1];
        }
      }
      LiteralPattern(pattern[1..], value[1..]);
      assert value == [value[0]] + value[1..] && pattern == [pattern[0]] + pattern[1..];
    }
  }

  /** A lone `*` matches every name on one line, the empty name included. */
  lemma {:induction false} StarPattern(value: string)
    ensures GlobMatch("*", value) <==> NoLineTerminator(value)
  {
    if value != [] {
      StarPattern(value[1..]);
      assert GlobMatch("", value) == false;
      assert NoLineTerminator(value) <==> !IsLineTerminator(value[0]) && NoLineTerminator(value[1..]) by {
        forall i | 1 <= i < |value| ensures value[i] == value[1..][i - 1] { }
      }
    }
  }

  /** A literal followed by `*` matches the names that start with the literal and continue on one line. */
  lemma {:induction false} PrefixPattern(prefix: string, value: string)
    requires '*' !in prefix
    ensures GlobMatch(prefix + "*", value) <==>
      |prefix| <= |value| && value[..|prefix|] == prefix && NoLineTerminator(value[|prefix|..])
  {
    if prefix == [] {
      assert prefix + "*" == "*";
      StarPattern(value);
    } else {
      assert (prefix + "*")[0] == prefix[0] && (prefix + "*")[1..] == prefix[1..] + "*";
      assert '*' !in prefix[1..] by {
        forall i | 0 <= i < |prefix[1..]| ensures prefix[1..][i] != '*' {
          assert prefix[1..][i] == prefix[i + 1];
        }
      }
      if value != [] {
        PrefixPattern(prefix[1..], value[1..]);
        if |prefix| <= |value| {
          assert value[1..][..|prefix| - 1] == value[1..|prefix|];
          assert value[1..][|prefix| - 1..] == value[|prefix|..];
          assert value[..|prefix|] == [value[0]] + value[1..|prefix|];
          assert prefix == [prefix[0]] + prefix[1..];
        }
      }
    }
  }

  /**
   * The filter context `{ id, type, ...attributes }`: an attribute with the
   * key `id` or `type` replaces that entry where it stands.
   */
  function SubjectContext(subject: Subject): Dict<string, Value> {
    Spread([("id", Str(subject.id)), ("type", Str(subject.subjectType))], subject.attributes.GetOr([]))
  }

  /** Object spread: each entry of `es` is set on `d` in turn. */
  function Spread(d: Dict<string, Value>, es: seq<Entry>): (r: Dict<string, Value>)
    ensures UniqueKeys(es) ==> forall k :: Get(r, k) == if Lookup(es, k).Some? then Lookup(es, k) else Get(d, k)
    decreases |es|
  {
    if es == [] then d
    else
      var r := Spread(Set(d, es[0].key, es[0].value), es[1..]);
      SpreadStep(d, es, r);
      r
  }

  /** Spreading entries one at a time: the first entry is set, the later ones override it. */
  lemma SpreadStep(d: Dict<string, Value>, es: seq<Entry>, r: Dict<string, Value>)
    requires es != []
    requires UniqueKeys(es[1..]) ==>
      forall k :: Get(r, k) == if Lookup(es[1..], k).Some? then Lookup(es[1..], k) else Get(Set(d, es[0].key, es[0].value), k)
    ensures UniqueKeys(es) ==> forall k :: Get(r, k) == if Lookup(es, k).Some? then Lookup(es, k) else Get(d, k)
  {
    if UniqueKeys(es) {
      assert UniqueKeys(es[1..]) by {
        forall i, j | 0 <= i < j < |es[1..]| ensures es[1..][i].key != es[1..][j].key {
          assert es[1..][i] == es[i + 1] && es[1..][j] == es[j + 1];
        }
      }
      assert Lookup(es[1..], es[0].key).None? by {
        forall j | 0 <= j < |es[1..]| ensures es[1..][j].key != es[0].key {
          assert es[1..][j] == es[j + 1];
        }
      }
    }
  }

  /**
   * The value the context holds under `key`: an attribute's value, else the
   * subject's id under "id" and its type under "type", else nothing.
   */
  function ContextValue(subject: Subject, key: string): Option<Value> {
    var attributes := subject.attributes.GetOr([]);
    if Lookup(attributes, key).Some? then Lookup(attributes, key)
    else if key == "id" then Some(Str(subject.id))
    else if key == "type" then Some(Str(subject.subjectType))
    else None
  }

  /** `context[key] === value` for every entry of the filter. */
  predicate FilterHolds(context: Dict<string, Value>, filter: seq<Entry>) {
    forall i :: 0 <= i < |filter| ==>
      Get(context, filter[i].key).Some? && StrictEquals(Get(context, filter[i].key).value, filter[i].value)
  }

  /** `matchSubjectFilter`: no filter admits every subject. */
  predicate MatchSubjectFilter(filter: Option<seq<Entry>>, subject: Subject) {
    filter.None? || FilterHolds(SubjectContext(subject), filter.value)
  }

  /** The context built by spreading holds, under each key, the value `ContextValue` describes. */
  lemma ContextAgrees(subject: Subject, key: string)
    requires UniqueKeys(subject.attributes.GetOr([]))
    ensures Get(SubjectContext(subject), key) == ContextValue(subject, key)
  {
    var base: Dict<string, Value> := [("id", Str(subject.id)), ("type", Str(subject.subjectType))];
    if key != "id" && key != "type" {
      assert Get(base[1..], key) == None;
    }
  }

  /**
   * A subject passes a filter exactly when, for every entry of the filter,
   * the subject's attribute under that key (or, failing one, its id or
   * type) is a primitive equal to the entry's value.
   */
  lemma SubjectFilterMeaning(filter: seq<Entry>, subject: Subject)
    requires UniqueKeys(subject.attributes.GetOr([]))
    ensures MatchSubjectFilter(Some(filter), subject) <==>
      forall i :: 0 <= i < |filter| ==>
        ContextValue(subject, filter[i].key).Some? &&
        StrictEquals(ContextValue(subject, filter[i].key).value, filter[i].value)
  {
    forall i | 0 <= i < |filter| ensures Get(SubjectContext(subject), filter[i].key) == ContextValue(subject, filter[i].key) {
      ContextAgrees(subject, filter[i].key);
    }
  }
}
