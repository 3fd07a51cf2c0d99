/** The favorites collection: an ordered sequence of cars kept unique by `id`,
    changed only by toggling one car in or out. */
module FavoritesStore {
  import opened Cars

  /** No two favorites share an `id`. */
  ghost predicate Unique(favs: seq<Car>)
  {
    forall i, j :: 0 <= i < j < |favs| ==> favs[i].id != favs[j].id
  }

  /** Membership query by identifier: some favorite carries `carId`.
      This is the `some(item => item.id === carId)` scan used by the store and the page. */
  function IsFavorite(favs: seq<Car>, carId: string): (r: bool)
    ensures r <==> exists i :: 0 <= i < |favs| && favs[i].id == carId
  {
    if |favs| == 0 then false
    else favs[0].id == carId || IsFavorite(favs[1..], carId)
  }

  /** Membership by identifier, stated over the cars themselves: some car in the
      collection carries `carId`. */
  lemma IsFavoriteElement(favs: seq<Car>, carId: string)
    ensures IsFavorite(favs, carId) <==> exists c :: c in favs && c.id == carId
  {
  }

  /** The state every store starts in, before anything is toggled. */
  function InitialFavorites(): (r: seq<Car>)
    ensures forall carId :: !IsFavorite(r, carId)
    ensures Unique(r)
  {
    []
  }

  /** Keeps, in their original order, the favorites whose `id` differs from `carId`
      (the `filter(item => item.id !== carId)` of the store). */
  function Without(favs: seq<Car>, carId: string): (r: seq<Car>)
    ensures forall carId' :: IsFavorite(r, carId') <==> IsFavorite(favs, carId') && carId' != carId
    ensures |r| <= |favs|
    ensures |r| == |favs| <==> !IsFavorite(favs, carId)
  {
    if |favs| == 0 then []
    else if favs[0].id == carId then Without(favs[1..], carId)
    else [favs[0]] + Without(favs[1..], carId)
  }

  /** The store's `toggleFavorite`: remove every favorite with the car's `id`
      if there is one, otherwise append the car at the end. */
  function Toggle(favs: seq<Car>, car: Car): (r: seq<Car>)
    ensures IsFavorite(r, car.id) <==> !IsFavorite(favs, car.id)
    ensures forall carId :: carId != car.id ==> (IsFavorite(r, carId) <==> IsFavorite(favs, carId))
    ensures !IsFavorite(favs, car.id) ==> r == favs + [car] && |r| == |favs| + 1
    ensures IsFavorite(favs, car.id) ==> |r| < |favs|
  {
    if IsFavorite(favs, car.id) then Without(favs, car.id)
    else AppendMembership(favs, car); favs + [car]
  }

  /** Appending a car adds exactly its `id` to the identifiers present. */
  lemma AppendMembership(favs: seq<Car>, car: Car)
    ensures forall carId :: IsFavorite(favs + [car], carId) <==> IsFavorite(favs, carId) || carId == car.id
  {
    var r := favs + [car];
    forall carId ensures IsFavorite(r, carId) <==> IsFavorite(favs, carId) || carId == car.id {
      if IsFavorite(favs, carId) {
        var k :| 0 <= k < |favs| && favs[k].id == carId;
        assert r[k] == favs[k];
      }
      if carId == car.id {
        assert r[|favs|] == car;
      }
      if IsFavorite(r, carId) && carId != car.id {
        var k :| 0 <= k < |r| && r[k].id == carId;
        assert favs[k] == r[k];
      }
    }
  }

  /** Applies the toggles of `cars` one after another, first to last. */
  function ToggleAll(favs: seq<Car>, cars: seq<Car>): seq<Car>
    decreases |cars|
  {
    if |cars| == 0 then favs
    else ToggleAll(Toggle(favs, cars[0]), cars[1..])
  }

  /** Removing an identifier that is not there changes nothing. */
  lemma {:induction false} WithoutAbsent(favs: seq<Car>, carId: string)
    requires !IsFavorite(favs, carId)
    ensures Without(favs, carId) == favs
  {
    if |favs| > 0 {
      assert favs[1..][0..] == favs[1..];
      WithoutAbsent(favs[1..], carId);
    }
  }

  /** Removal distributes over concatenation, so the kept favorites stay in their
      original relative order: together with its effect on a single car, this
      determines `Without` completely. */
  lemma {:induction false} WithoutConcat(a: seq<Car>, b: seq<Car>, carId: string)
    ensures Without(a + b, carId) == Without(a, carId) + Without(b, carId)
  {
    if |a| == 0 {
      assert a + b == b;
    } else {
      assert (a + b)[1..] == a[1..] + b;
      WithoutConcat(a[1..], b, carId);
    }
  }

  /** Removal never breaks uniqueness. */
  lemma {:induction false} WithoutUnique(favs: seq<Car>, carId: string)
    requires Unique(favs)
    ensures Unique(Without(favs, carId))
  {
    if |favs| > 0 {
      var tail := favs[1..];
      assert Unique(tail) by {
        forall i, j | 0 <= i < j < |tail| ensures tail[i].id != tail[j].id {
          assert tail[i] == favs[i + 1] && tail[j] == favs[j + 1];
        }
      }
      WithoutUnique(tail, carId);
      if favs[0].id != carId {
        var rest := Without(tail, carId);
        var r := [favs[0]] + rest;
        forall i, j | 0 <= i < j < |r| ensures r[i].id != r[j].id {
          if i == 0 {
            assert r[j] == rest[j - 1];
            assert IsFavorite(rest, r[j].id);
            var k :| 0 <= k < |tail| && tail[k].id == r[j].id;
            assert favs[k + 1] == tail[k];
          } else {
            assert r[i] == rest[i - 1] && r[j] == rest[j - 1];
          }
        }
      }
    }
  }

  /** In a unique collection an identifier that is present is held by exactly one
      favorite, so removing it shortens the collection by exactly one. */
  lemma {:induction false} WithoutPresentLength(favs: seq<Car>, carId: string)
    requires Unique(favs)
    requires IsFavorite(favs, carId)
    ensures |Without(favs, carId)| == |favs| - 1
  {
    var tail := favs[1..];
    assert Unique(tail) by {
      forall i, j | 0 <= i < j < |tail| ensures tail[i].id != tail[j].id {
        assert tail[i] == favs[i + 1] && tail[j] == favs[j + 1];
      }
    }
    if favs[0].id == carId {
      assert !IsFavorite(tail, carId) by {
        forall k | 0 <= k < |tail| ensures tail[k].id != carId {
          assert tail[k] == favs[k + 1];
        }
      }
      WithoutAbsent(tail, carId);
    } else {
      WithoutPresentLength(tail, carId);
    }
  }

  /** Toggling keeps the collection unique: no two favorites share an `id` afterwards. */
  lemma TogglePreservesUnique(favs: seq<Car>, car: Car)
    requires Unique(favs)
    ensures Unique(Toggle(favs, car))
  {
    if IsFavorite(favs, car.id) {
      WithoutUnique(favs, car.id);
    }
  }

  /** Toggling a car whose `id` is held by `hit` in a unique collection removes
      exactly that favorite: the ones before and after it stay, in order. */
  lemma TogglePresent(before: seq<Car>, hit: Car, after: seq<Car>, car: Car)
    requires Unique(before + [hit] + after)
    requires hit.id == car.id
    ensures Toggle(before + [hit] + after, car) == before + after
  {
    var favs := before + [hit] + after;
    var n := |before|;
    assert favs[n] == hit;
    assert IsFavorite(favs, car.id);
    assert !IsFavorite(before, car.id) by {
      forall k | 0 <= k < n ensures before[k].id != car.id {
        assert before[k] == favs[k];
        assert favs[k].id != favs[n].id;
      }
    }
    assert !IsFavorite(after, car.id) by {
      forall k | 0 <= k < |after| ensures after[k].id != car.id {
        assert after[k] == favs[n + 1 + k];
        assert favs[n].id != favs[n + 1 + k].id;
      }
    }
    WithoutConcat(before + [hit], after, car.id);
    WithoutConcat(before, [hit], car.id);
    WithoutAbsent(before, car.id);
    WithoutAbsent(after, car.id);
    assert [hit][1..] == [];
    assert Without([hit], car.id) == [];
    assert Without(before + [hit], car.id) == before;
  }

  /** Appending a car and then removing its (previously absent) `id` gives back
      the original collection. */
  lemma {:induction false} WithoutAppended(favs: seq<Car>, car: Car)
    requires !IsFavorite(favs, car.id)
    ensures Without(favs + [car], car.id) == favs
  {
    WithoutConcat(favs, [car], car.id);
    WithoutAbsent(favs, car.id);
    assert [car][1..] == [];
  }

  /** Toggling a car whose `id` is absent twice restores the collection exactly. */
  lemma {:induction false} ToggleTwiceAbsent(favs: seq<Car>, car: Car)
    requires !IsFavorite(favs, car.id)
    ensures Toggle(Toggle(favs, car), car) == favs
  {
    WithoutAppended(favs, car);
  }

  /** Toggling a car whose `id` is present twice removes the stored favorite and
      appends `car` at the end, after the others. */
  lemma ToggleTwicePresent(favs: seq<Car>, car: Car)
    requires IsFavorite(favs, car.id)
    ensures Toggle(Toggle(favs, car), car) == Without(favs, car.id) + [car]
  {
  }

  /** In a unique collection, two toggles of `car` give back the collection exactly
      when its `id` was absent, or when the favorite holding it is the last one
      and is `car` itself. */
  lemma {:induction false} ToggleTwiceRestores(favs: seq<Car>, car: Car)
    requires Unique(favs)
    ensures Toggle(Toggle(favs, car), car) == favs
        <==> !IsFavorite(favs, car.id) || favs[|favs| - 1] == car
  {
    if !IsFavorite(favs, car.id) {
      ToggleTwiceAbsent(favs, car);
    } else {
      var twice := Toggle(Toggle(favs, car), car);
      ToggleTwicePresent(favs, car);
      var n := |favs| - 1;
      assert twice[|twice| - 1] == car;
      if favs[n] == car {
        var before := favs[..n];
        assert favs == before + [car] + [];
        TogglePresent(before, car, [], car);
        assert !IsFavorite(before, car.id) by {
          forall k | 0 <= k < |before| ensures before[k].id != car.id {
            assert before[k] == favs[k];
            assert favs[k].id != favs[n].id;
          }
        }
        assert Toggle(before, car) == before + [car];
        assert twice == favs;
      }
    }
  }

  /** A concrete pair of favorites for which toggling the first one twice
      reorders the collection. */
  lemma ToggleTwiceReorders(a: Car, b: Car)
    requires a.id != b.id
    ensures Toggle(Toggle([a, b], a), a) == [b, a] != [a, b]
  {
    ToggleTwicePresent([a, b], a);
    assert Without([a, b], a.id) == [b];
  }

  /** However many toggles are applied, starting from a unique collection (in
      particular the initial one), no two favorites ever share an `id`. */
  lemma {:induction false} ToggleAllPreservesUnique(favs: seq<Car>, cars: seq<Car>)
    requires Unique(favs)
    ensures Unique(ToggleAll(favs, cars))
    decreases |cars|
  {
    if |cars| > 0 {
      TogglePreservesUnique(favs, cars[0]);
      ToggleAllPreservesUnique(Toggle(favs, cars[0]), cars[1..]);
    }
  }
}
