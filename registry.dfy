/**
 * The container's bean definition registry, reduced to what the scanner
 * uses of it: a keyed store of definition records where registering under
 * a key that is already present replaces the earlier record.
 */
module BeanDefinitions {

  /** Java's `long`: a boxed `Long` attribute value is one of these. */
  newtype int64 = x: int | -0x8000_0000_0000_0000 <= x < 0x8000_0000_0000_0000

  /** The values the scanner stores as definition attributes. */
  datatype AttributeValue = LongValue(long: int64) | StringValue(str: string)

  /**
   * A bean definition: the class to instantiate, named attributes, and
   * indexed constructor arguments.
   */
  datatype Definition = Definition(
    beanClassName: string,
    attributes: map<string, AttributeValue>,
    constructorArgs: map<nat, string>)

  /** One call of `registerBeanDefinition(name, definition)`. */
  type Registration = (string, Definition)

  /** The keys written by a sequence of registrations. */
  function Keys(puts: seq<Registration>): (ks: set<string>)
    ensures forall k :: k in ks <==> exists j :: 0 <= j < |puts| && puts[j].0 == k
  {
    set j | 0 <= j < |puts| :: puts[j].0
  }

  /** The registry after performing `puts` on `m`, left to right. */
  function Apply(m: map<string, Definition>, puts: seq<Registration>): (r: map<string, Definition>)
    ensures m.Keys <= r.Keys
    ensures puts != [] ==> var last := puts[|puts| - 1]; last.0 in r && r[last.0] == last.1
  {
    if puts == [] then m
    else
      var last := puts[|puts| - 1];
      Apply(m, puts[..|puts| - 1])[last.0 := last.1]
  }

  /** Performing one more registration writes its key. */
  lemma ApplySnoc(m: map<string, Definition>, puts: seq<Registration>, i: nat)
    requires i < |puts|
    ensures Apply(m, puts[..i + 1]) == Apply(m, puts[..i])[puts[i].0 := puts[i].1]
    ensures puts[..i + 1] == puts[..i] + [puts[i]]
  {
    assert puts[..i + 1][..i] == puts[..i];
  }

  /** `puts[j]` is the last registration under key `k`. */
  ghost predicate LastFor(puts: seq<Registration>, k: string, j: int)
  {
    0 <= j < |puts| && puts[j].0 == k
    && forall j' :: j < j' < |puts| ==> puts[j'].0 != k
  }

  /** The registry ends up with exactly the old keys and the written ones. */
  lemma {:induction false} ApplyKeys(m: map<string, Definition>, puts: seq<Registration>)
    ensures Apply(m, puts).Keys == m.Keys + Keys(puts)
    decreases |puts|
  {
    if puts != [] {
      var init := puts[..|puts| - 1];
      ApplyKeys(m, init);
      assert Keys(puts) == Keys(init) + {puts[|puts| - 1].0} by {
        forall k ensures k in Keys(puts) <==> k in Keys(init) + {puts[|puts| - 1].0} {
          if k in Keys(puts) {
            var j :| 0 <= j < |puts| && puts[j].0 == k;
            if j < |init| {
              assert init[j].0 == k;
            }
          }
          if k in Keys(init) {
            var j :| 0 <= j < |init| && init[j].0 == k;
            assert puts[j].0 == k;
          }
        }
      }
    }
  }

  /** A written key holds the record of the last registration under it. */
  lemma {:induction false} ApplyLastWriteWins(m: map<string, Definition>, puts: seq<Registration>, k: string, j: int)
    requires LastFor(puts, k, j)
    ensures k in Apply(m, puts) && Apply(m, puts)[k] == puts[j].1
    decreases |puts|
  {
    var last := |puts| - 1;
    if j < last {
      var init := puts[..last];
      assert LastFor(init, k, j);
      ApplyLastWriteWins(m, init, k, j);
      assert puts[last].0 != k;
    }
  }

  /** A key no registration writes keeps whatever it had before. */
  lemma {:induction false} ApplyUntouched(m: map<string, Definition>, puts: seq<Registration>, k: string)
    requires k !in Keys(puts)
    ensures k in Apply(m, puts) <==> k in m
    ensures k in m ==> Apply(m, puts)[k] == m[k]
    decreases |puts|
  {
    if puts != [] {
      var init := puts[..|puts| - 1];
      assert puts[|puts| - 1].0 != k;
      forall j | 0 <= j < |init| ensures init[j].0 != k {
        assert init[j] == puts[j];
      }
      ApplyUntouched(m, init, k);
    }
  }

  /** Every written key has a last registration. */
  lemma {:induction false} LastForExists(puts: seq<Registration>, k: string) returns (j: int)
    requires k in Keys(puts)
    ensures LastFor(puts, k, j)
    decreases |puts|
  {
    var last := |puts| - 1;
    if puts[last].0 == k {
      j := last;
    } else {
      var init := puts[..last];
      forall j' | 0 <= j' < |puts| && puts[j'].0 == k ensures j' < last && init[j'].0 == k {
      }
      j := LastForExists(init, k);
    }
  }

  /**
   * The registry the container holds. `history` records every call of
   * `RegisterBeanDefinition`, in order.
   */
  class BeanRegistry {
    var definitions: map<string, Definition>
    ghost var history: seq<Registration>

    constructor ()
      ensures definitions == map[] && history == []
    {
      definitions := map[];
      history := [];
    }

    /** Registers `definition` under `name`, replacing any earlier record. */
    method RegisterBeanDefinition(name: string, definition: Definition)
      modifies this
      ensures definitions == old(definitions)[name := definition]
      ensures history == old(history) + [(name, definition)]
    {
      definitions := definitions[name := definition];
      history := history + [(name, definition)];
    }
  }
}
