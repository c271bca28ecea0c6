/** The two Treble compatibility tests (tests/treble_sepolicy_tests.py), as the lists of violators
    that their messages name. */
module TrebleTests {
  import opened MiniCil

  /** New public types that the mapping says nothing about. */
  function UnmappedNewTypes(basePub: Cil, oldPub: Cil, mapping: Cil): set<string> {
    (basePub.types - oldPub.types) - mapping.rsets.Keys
  }

  /** Removed public types that the mapping knows and does not declare. */
  function UnmappedRmTypes(basePub: Cil, oldPub: Cil, mapping: Cil): set<string> {
    set o | o in oldPub.types - basePub.types && o in mapping.pubtypes && o !in mapping.types
  }

  method TestNoUnmappedNewTypes(basePub: Cil, oldPub: Cil, mapping: Cil) returns (violators: seq<string>)
    ensures forall n :: n in violators <==> n in UnmappedNewTypes(basePub, oldPub, mapping)
  {
    violators := [];
    var newt := basePub.types - oldPub.types;
    var todo := newt;
    while todo != {}
      invariant todo <= newt
      invariant forall n :: n in violators <==> n in newt - todo && n !in mapping.rsets
      decreases |todo|
    {
      var n :| n in todo;
      todo := todo - {n};
      if n !in mapping.rsets {
        violators := violators + [n];
      }
    }
  }

  method TestNoUnmappedRmTypes(basePub: Cil, oldPub: Cil, mapping: Cil) returns (violators: seq<string>)
    ensures forall o :: o in violators <==> o in UnmappedRmTypes(basePub, oldPub, mapping)
  {
    violators := [];
    var rmt := oldPub.types - basePub.types;
    var todo := rmt;
    while todo != {}
      invariant todo <= rmt
      invariant forall o :: o in violators <==> o in rmt - todo && o in mapping.pubtypes && o !in mapping.types
      decreases |todo|
    {
      var o :| o in todo;
      todo := todo - {o};
      if o in mapping.pubtypes && o !in mapping.types {
        violators := violators + [o];
      }
    }
  }
}
