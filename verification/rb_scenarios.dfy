/** The insertion and removal sequences of the red-black tree's tests, each
    proved to give the tree shape and colours the tests expect. Every insert
    step is shown in two parts: where the search for the key ends, and the
    fix-up from there. */
module RedBlackScenarios {
  import opened RedBlackCore
  import opened RedBlackSearch
  import opened RedBlackInsert
  import opened RedBlackDelete

  function Leaf(c: Color, v: int): Tree {
    Node(c, Nil, v, Nil)
  }

  /** The first key becomes the black root. */
  lemma InsertIntoEmpty(v: int)
    ensures InsertTree(Nil, v) == Leaf(Black, v)
  {
    assert Locate(Nil, [], v) == (Nil, []);
  }

  lemma LeftLeftRotationStep2FixUp()
    ensures InsertFixUp(Leaf(Red, 2), [Frame(Left, Black, 3, Nil)]) == Node(Black, Leaf(Red, 2), 3, Nil)
  {
    assert Plug(Leaf(Red, 2), [Frame(Left, Black, 3, Nil)]) == Plug(Node(Black, Leaf(Red, 2), 3, Nil), []) by {
      assert [Frame(Left, Black, 3, Nil)][1..] == [];
    }
  }

  lemma LeftLeftRotationStep2()
    ensures InsertTree(Leaf(Black, 3), 2) == Node(Black, Leaf(Red, 2), 3, Nil)
  {
    assert Locate(Leaf(Black, 3), [], 2) == Locate(Nil, [Frame(Left, Black, 3, Nil)], 2) by {
      assert [Down(Leaf(Black, 3), Left)] + [] == [Frame(Left, Black, 3, Nil)];
    }
    assert Locate(Leaf(Black, 3), [], 2) == (Nil, [Frame(Left, Black, 3, Nil)]);
    LeftLeftRotationStep2FixUp();
  }

  lemma LeftLeftRotationStep3FixUp()
    ensures InsertFixUp(Leaf(Red, 1), [Frame(Left, Red, 2, Nil), Frame(Left, Black, 3, Nil)]) == Node(Black, Leaf(Red, 1), 2, Leaf(Red, 3))
  {
    assert Rotate(Leaf(Red, 1), [Frame(Left, Red, 2, Nil), Frame(Left, Black, 3, Nil)]) == (Leaf(Red, 1), [Frame(Left, Black, 2, Leaf(Red, 3))]) by {
      assert [Frame(Left, Black, 2, Leaf(Red, 3))] + [Frame(Left, Red, 2, Nil), Frame(Left, Black, 3, Nil)][2..] == [Frame(Left, Black, 2, Leaf(Red, 3))];
    }
    assert InsertFixUp(Leaf(Red, 1), [Frame(Left, Red, 2, Nil), Frame(Left, Black, 3, Nil)]) == InsertFixUp(Leaf(Red, 1), [Frame(Left, Black, 2, Leaf(Red, 3))]);
    assert Plug(Leaf(Red, 1), [Frame(Left, Black, 2, Leaf(Red, 3))]) == Plug(Node(Black, Leaf(Red, 1), 2, Leaf(Red, 3)), []) by {
      assert [Frame(Left, Black, 2, Leaf(Red, 3))][1..] == [];
    }
  }

  lemma LeftLeftRotationStep3()
    ensures InsertTree(Node(Black, Leaf(Red, 2), 3, Nil), 1) == Node(Black, Leaf(Red, 1), 2, Leaf(Red, 3))
  {
    assert Locate(Node(Black, Leaf(Red, 2), 3, Nil), [], 1) == Locate(Leaf(Red, 2), [Frame(Left, Black, 3, Nil)], 1) by {
      assert [Down(Node(Black, Leaf(Red, 2), 3, Nil), Left)] + [] == [Frame(Left, Black, 3, Nil)];
    }
    assert Locate(Leaf(Red, 2), [Frame(Left, Black, 3, Nil)], 1) == Locate(Nil, [Frame(Left, Red, 2, Nil), Frame(Left, Black, 3, Nil)], 1) by {
      assert [Down(Leaf(Red, 2), Left)] + [Frame(Left, Black, 3, Nil)] == [Frame(Left, Red, 2, Nil), Frame(Left, Black, 3, Nil)];
    }
    assert Locate(Node(Black, Leaf(Red, 2), 3, Nil), [], 1) == (Nil, [Frame(Left, Red, 2, Nil), Frame(Left, Black, 3, Nil)]);
    LeftLeftRotationStep3FixUp();
  }

  /** Inserting 3, 2, 1: one rotation at the root; 2 is the black root with red children 1 and 3. */
  lemma LeftLeftRotation()
    ensures InsertTree(InsertTree(InsertTree(Nil, 3), 2), 1)
      == Node(Black, Leaf(Red, 1), 2, Leaf(Red, 3))
  {
    InsertIntoEmpty(3);
    LeftLeftRotationStep2();
    LeftLeftRotationStep3();
  }

  lemma LeftRightRotationStep2FixUp()
    ensures InsertFixUp(Leaf(Red, 1), [Frame(Left, Black, 3, Nil)]) == Node(Black, Leaf(Red, 1), 3, Nil)
  {
    assert Plug(Leaf(Red, 1), [Frame(Left, Black, 3, Nil)]) == Plug(Node(Black, Leaf(Red, 1), 3, Nil), []) by {
      assert [Frame(Left, Black, 3, Nil)][1..] == [];
    }
  }

  lemma LeftRightRotationStep2()
    ensures InsertTree(Leaf(Black, 3), 1) == Node(Black, Leaf(Red, 1), 3, Nil)
  {
    assert Locate(Leaf(Black, 3), [], 1) == Locate(Nil, [Frame(Left, Black, 3, Nil)], 1) by {
      assert [Down(Leaf(Black, 3), Left)] + [] == [Frame(Left, Black, 3, Nil)];
    }
    assert Locate(Leaf(Black, 3), [], 1) == (Nil, [Frame(Left, Black, 3, Nil)]);
    LeftRightRotationStep2FixUp();
  }

  lemma LeftRightRotationStep3FixUp()
    ensures InsertFixUp(Leaf(Red, 2), [Frame(Right, Red, 1, Nil), Frame(Left, Black, 3, Nil)]) == Node(Black, Leaf(Red, 1), 2, Leaf(Red, 3))
  {
    assert Straighten(Leaf(Red, 2), [Frame(Right, Red, 1, Nil), Frame(Left, Black, 3, Nil)]) == (Leaf(Red, 1), [Frame(Left, Red, 2, Nil), Frame(Left, Black, 3, Nil)]) by {
      assert [Frame(Left, Red, 2, Nil)] + [Frame(Right, Red, 1, Nil), Frame(Left, Black, 3, Nil)][1..] == [Frame(Left, Red, 2, Nil), Frame(Left, Black, 3, Nil)];
    }
    assert Rotate(Leaf(Red, 1), [Frame(Left, Red, 2, Nil), Frame(Left, Black, 3, Nil)]) == (Leaf(Red, 1), [Frame(Left, Black, 2, Leaf(Red, 3))]) by {
      assert [Frame(Left, Black, 2, Leaf(Red, 3))] + [Frame(Left, Red, 2, Nil), Frame(Left, Black, 3, Nil)][2..] == [Frame(Left, Black, 2, Leaf(Red, 3))];
    }
    assert InsertFixUp(Leaf(Red, 2), [Frame(Right, Red, 1, Nil), Frame(Left, Black, 3, Nil)]) == InsertFixUp(Leaf(Red, 1), [Frame(Left, Black, 2, Leaf(Red, 3))]);
    assert Plug(Leaf(Red, 1), [Frame(Left, Black, 2, Leaf(Red, 3))]) == Plug(Node(Black, Leaf(Red, 1), 2, Leaf(Red, 3)), []) by {
      assert [Frame(Left, Black, 2, Leaf(Red, 3))][1..] == [];
    }
  }

  lemma LeftRightRotationStep3()
    ensures InsertTree(Node(Black, Leaf(Red, 1), 3, Nil), 2) == Node(Black, Leaf(Red, 1), 2, Leaf(Red, 3))
  {
    assert Locate(Node(Black, Leaf(Red, 1), 3, Nil), [], 2) == Locate(Leaf(Red, 1), [Frame(Left, Black, 3, Nil)], 2) by {
      assert [Down(Node(Black, Leaf(Red, 1), 3, Nil), Left)] + [] == [Frame(Left, Black, 3, Nil)];
    }
    assert Locate(Leaf(Red, 1), [Frame(Left, Black, 3, Nil)], 2) == Locate(Nil, [Frame(Right, Red, 1, Nil), Frame(Left, Black, 3, Nil)], 2) by {
      assert [Down(Leaf(Red, 1), Right)] + [Frame(Left, Black, 3, Nil)] == [Frame(Right, Red, 1, Nil), Frame(Left, Black, 3, Nil)];
    }
    assert Locate(Node(Black, Leaf(Red, 1), 3, Nil), [], 2) == (Nil, [Frame(Right, Red, 1, Nil), Frame(Left, Black, 3, Nil)]);
    LeftRightRotationStep3FixUp();
  }

  /** Inserting 3, 1, 2: a rotation at 1, then one at the root; the same tree as for 3, 2, 1. */
  lemma LeftRightRotation()
    ensures InsertTree(InsertTree(InsertTree(Nil, 3), 1), 2)
      == Node(Black, Leaf(Red, 1), 2, Leaf(Red, 3))
  {
    InsertIntoEmpty(3);
    LeftRightRotationStep2();
    LeftRightRotationStep3();
  }

  lemma RightLeftRotationStep2FixUp()
    ensures InsertFixUp(Leaf(Red, 3), [Frame(Right, Black, 1, Nil)]) == Node(Black, Nil, 1, Leaf(Red, 3))
  {
    assert Plug(Leaf(Red, 3), [Frame(Right, Black, 1, Nil)]) == Plug(Node(Black, Nil, 1, Leaf(Red, 3)), []) by {
      assert [Frame(Right, Black, 1, Nil)][1..] == [];
    }
  }

  lemma RightLeftRotationStep2()
    ensures InsertTree(Leaf(Black, 1), 3) == Node(Black, Nil, 1, Leaf(Red, 3))
  {
    assert Locate(Leaf(Black, 1), [], 3) == Locate(Nil, [Frame(Right, Black, 1, Nil)], 3) by {
      assert [Down(Leaf(Black, 1), Right)] + [] == [Frame(Right, Black, 1, Nil)];
    }
    assert Locate(Leaf(Black, 1), [], 3) == (Nil, [Frame(Right, Black, 1, Nil)]);
    RightLeftRotationStep2FixUp();
  }

  lemma RightLeftRotationStep3FixUp()
    ensures InsertFixUp(Leaf(Red, 2), [Frame(Left, Red, 3, Nil), Frame(Right, Black, 1, Nil)]) == Node(Black, Leaf(Red, 1), 2, Leaf(Red, 3))
  {
    assert Straighten(Leaf(Red, 2), [Frame(Left, Red, 3, Nil), Frame(Right, Black, 1, Nil)]) == (Leaf(Red, 3), [Frame(Right, Red, 2, Nil), Frame(Right, Black, 1, Nil)]) by {
      assert [Frame(Right, Red, 2, Nil)] + [Frame(Left, Red, 3, Nil), Frame(Right, Black, 1, Nil)][1..] == [Frame(Right, Red, 2, Nil), Frame(Right, Black, 1, Nil)];
    }
    assert Rotate(Leaf(Red, 3), [Frame(Right, Red, 2, Nil), Frame(Right, Black, 1, Nil)]) == (Leaf(Red, 3), [Frame(Right, Black, 2, Leaf(Red, 1))]) by {
      assert [Frame(Right, Black, 2, Leaf(Red, 1))] + [Frame(Right, Red, 2, Nil), Frame(Right, Black, 1, Nil)][2..] == [Frame(Right, Black, 2, Leaf(Red, 1))];
    }
    assert InsertFixUp(Leaf(Red, 2), [Frame(Left, Red, 3, Nil), Frame(Right, Black, 1, Nil)]) == InsertFixUp(Leaf(Red, 3), [Frame(Right, Black, 2, Leaf(Red, 1))]);
    assert Plug(Leaf(Red, 3), [Frame(Right, Black, 2, Leaf(Red, 1))]) == Plug(Node(Black, Leaf(Red, 1), 2, Leaf(Red, 3)), []) by {
      assert [Frame(Right, Black, 2, Leaf(Red, 1))][1..] == [];
    }
  }

  lemma RightLeftRotationStep3()
    ensures InsertTree(Node(Black, Nil, 1, Leaf(Red, 3)), 2) == Node(Black, Leaf(Red, 1), 2, Leaf(Red, 3))
  {
    assert Locate(Node(Black, Nil, 1, Leaf(Red, 3)), [], 2) == Locate(Leaf(Red, 3), [Frame(Right, Black, 1, Nil)], 2) by {
      assert [Down(Node(Black, Nil, 1, Leaf(Red, 3)), Right)] + [] == [Frame(Right, Black, 1, Nil)];
    }
    assert Locate(Leaf(Red, 3), [Frame(Right, Black, 1, Nil)], 2) == Locate(Nil, [Frame(Left, Red, 3, Nil), Frame(Right, Black, 1, Nil)], 2) by {
      assert [Down(Leaf(Red, 3), Left)] + [Frame(Right, Black, 1, Nil)] == [Frame(Left, Red, 3, Nil), Frame(Right, Black, 1, Nil)];
    }
    assert Locate(Node(Black, Nil, 1, Leaf(Red, 3)), [], 2) == (Nil, [Frame(Left, Red, 3, Nil), Frame(Right, Black, 1, Nil)]);
    RightLeftRotationStep3FixUp();
  }

  /** Inserting 1, 3, 2: a rotation at 3, then one at the root; the same tree again. */
  lemma RightLeftRotation()
    ensures InsertTree(InsertTree(InsertTree(Nil, 1), 3), 2)
      == Node(Black, Leaf(Red, 1), 2, Leaf(Red, 3))
  {
    InsertIntoEmpty(1);
    RightLeftRotationStep2();
    RightLeftRotationStep3();
  }

  lemma RightRightRotationStep2FixUp()
    ensures InsertFixUp(Leaf(Red, 2), [Frame(Right, Black, 1, Nil)]) == Node(Black, Nil, 1, Leaf(Red, 2))
  {
    assert Plug(Leaf(Red, 2), [Frame(Right, Black, 1, Nil)]) == Plug(Node(Black, Nil, 1, Leaf(Red, 2)), []) by {
      assert [Frame(Right, Black, 1, Nil)][1..] == [];
    }
  }

  lemma RightRightRotationStep2()
    ensures InsertTree(Leaf(Black, 1), 2) == Node(Black, Nil, 1, Leaf(Red, 2))
  {
    assert Locate(Leaf(Black, 1), [], 2) == Locate(Nil, [Frame(Right, Black, 1, Nil)], 2) by {
      assert [Down(Leaf(Black, 1), Right)] + [] == [Frame(Right, Black, 1, Nil)];
    }
    assert Locate(Leaf(Black, 1), [], 2) == (Nil, [Frame(Right, Black, 1, Nil)]);
    RightRightRotationStep2FixUp();
  }

  lemma RightRightRotationStep3FixUp()
    ensures InsertFixUp(Leaf(Red, 3), [Frame(Right, Red, 2, Nil), Frame(Right, Black, 1, Nil)]) == Node(Black, Leaf(Red, 1), 2, Leaf(Red, 3))
  {
    assert Rotate(Leaf(Red, 3), [Frame(Right, Red, 2, Nil), Frame(Right, Black, 1, Nil)]) == (Leaf(Red, 3), [Frame(Right, Black, 2, Leaf(Red, 1))]) by {
      assert [Frame(Right, Black, 2, Leaf(Red, 1))] + [Frame(Right, Red, 2, Nil), Frame(Right, Black, 1, Nil)][2..] == [Frame(Right, Black, 2, Leaf(Red, 1))];
    }
    assert InsertFixUp(Leaf(Red, 3), [Frame(Right, Red, 2, Nil), Frame(Right, Black, 1, Nil)]) == InsertFixUp(Leaf(Red, 3), [Frame(Right, Black, 2, Leaf(Red, 1))]);
    assert Plug(Leaf(Red, 3), [Frame(Right, Black, 2, Leaf(Red, 1))]) == Plug(Node(Black, Leaf(Red, 1), 2, Leaf(Red, 3)), []) by {
      assert [Frame(Right, Black, 2, Leaf(Red, 1))][1..] == [];
    }
  }

  lemma RightRightRotationStep3()
    ensures InsertTree(Node(Black, Nil, 1, Leaf(Red, 2)), 3) == Node(Black, Leaf(Red, 1), 2, Leaf(Red, 3))
  {
    assert Locate(Node(Black, Nil, 1, Leaf(Red, 2)), [], 3) == Locate(Leaf(Red, 2), [Frame(Right, Black, 1, Nil)], 3) by {
      assert [Down(Node(Black, Nil, 1, Leaf(Red, 2)), Right)] + [] == [Frame(Right, Black, 1, Nil)];
    }
    assert Locate(Leaf(Red, 2), [Frame(Right, Black, 1, Nil)], 3) == Locate(Nil, [Frame(Right, Red, 2, Nil), Frame(Right, Black, 1, Nil)], 3) by {
      assert [Down(Leaf(Red, 2), Right)] + [Frame(Right, Black, 1, Nil)] == [Frame(Right, Red, 2, Nil), Frame(Right, Black, 1, Nil)];
    }
    assert Locate(Node(Black, Nil, 1, Leaf(Red, 2)), [], 3) == (Nil, [Frame(Right, Red, 2, Nil), Frame(Right, Black, 1, Nil)]);
    RightRightRotationStep3FixUp();
  }

  /** Inserting 1, 2, 3: one rotation at the root; the same tree again. */
  lemma RightRightRotation()
    ensures InsertTree(InsertTree(InsertTree(Nil, 1), 2), 3)
      == Node(Black, Leaf(Red, 1), 2, Leaf(Red, 3))
  {
    InsertIntoEmpty(1);
    RightRightRotationStep2();
    RightRightRotationStep3();
  }

  lemma LeftUncleCaseStep4FixUp()
    ensures InsertFixUp(Leaf(Red, 4), [Frame(Right, Red, 3, Nil), Frame(Right, Black, 2, Leaf(Red, 1))]) == Node(Black, Leaf(Black, 1), 2, Node(Black, Nil, 3, Leaf(Red, 4)))
  {
    assert RecolorUp(Leaf(Red, 4), [Frame(Right, Red, 3, Nil), Frame(Right, Black, 2, Leaf(Red, 1))]) == (Node(Red, Leaf(Black, 1), 2, Node(Black, Nil, 3, Leaf(Red, 4))), []) by {
      assert [Frame(Right, Red, 3, Nil), Frame(Right, Black, 2, Leaf(Red, 1))][2..] == [];
    }
    assert InsertFixUp(Leaf(Red, 4), [Frame(Right, Red, 3, Nil), Frame(Right, Black, 2, Leaf(Red, 1))]) == InsertFixUp(Node(Red, Leaf(Black, 1), 2, Node(Black, Nil, 3, Leaf(Red, 4))), []);
  }

  lemma LeftUncleCaseStep4()
    ensures InsertTree(Node(Black, Leaf(Red, 1), 2, Leaf(Red, 3)), 4) == Node(Black, Leaf(Black, 1), 2, Node(Black, Nil, 3, Leaf(Red, 4)))
  {
    assert Locate(Node(Black, Leaf(Red, 1), 2, Leaf(Red, 3)), [], 4) == Locate(Leaf(Red, 3), [Frame(Right, Black, 2, Leaf(Red, 1))], 4) by {
      assert [Down(Node(Black, Leaf(Red, 1), 2, Leaf(Red, 3)), Right)] + [] == [Frame(Right, Black, 2, Leaf(Red, 1))];
    }
    assert Locate(Leaf(Red, 3), [Frame(Right, Black, 2, Leaf(Red, 1))], 4) == Locate(Nil, [Frame(Right, Red, 3, Nil), Frame(Right, Black, 2, Leaf(Red, 1))], 4) by {
      assert [Down(Leaf(Red, 3), Right)] + [Frame(Right, Black, 2, Leaf(Red, 1))] == [Frame(Right, Red, 3, Nil), Frame(Right, Black, 2, Leaf(Red, 1))];
    }
    assert Locate(Node(Black, Leaf(Red, 1), 2, Leaf(Red, 3)), [], 4) == (Nil, [Frame(Right, Red, 3, Nil), Frame(Right, Black, 2, Leaf(Red, 1))]);
    LeftUncleCaseStep4FixUp();
  }

  lemma LeftUncleCaseStep5FixUp()
    ensures InsertFixUp(Leaf(Red, 5), [Frame(Right, Red, 4, Nil), Frame(Right, Black, 3, Nil), Frame(Right, Black, 2, Leaf(Black, 1))]) == Node(Black, Leaf(Black, 1), 2, Node(Black, Leaf(Red, 3), 4, Leaf(Red, 5)))
  {
    assert Rotate(Leaf(Red, 5), [Frame(Right, Red, 4, Nil), Frame(Right, Black, 3, Nil), Frame(Right, Black, 2, Leaf(Black, 1))]) == (Leaf(Red, 5), [Frame(Right, Black, 4, Leaf(Red, 3)), Frame(Right, Black, 2, Leaf(Black, 1))]) by {
      assert [Frame(Right, Black, 4, Leaf(Red, 3))] + [Frame(Right, Red, 4, Nil), Frame(Right, Black, 3, Nil), Frame(Right, Black, 2, Leaf(Black, 1))][2..] == [Frame(Right, Black, 4, Leaf(Red, 3)), Frame(Right, Black, 2, Leaf(Black, 1))];
    }
    assert InsertFixUp(Leaf(Red, 5), [Frame(Right, Red, 4, Nil), Frame(Right, Black, 3, Nil), Frame(Right, Black, 2, Leaf(Black, 1))]) == InsertFixUp(Leaf(Red, 5), [Frame(Right, Black, 4, Leaf(Red, 3)), Frame(Right, Black, 2, Leaf(Black, 1))]);
    assert Plug(Leaf(Red, 5), [Frame(Right, Black, 4, Leaf(Red, 3)), Frame(Right, Black, 2, Leaf(Black, 1))]) == Plug(Node(Black, Leaf(Red, 3), 4, Leaf(Red, 5)), [Frame(Right, Black, 2, Leaf(Black, 1))]) by {
      assert [Frame(Right, Black, 4, Leaf(Red, 3)), Frame(Right, Black, 2, Leaf(Black, 1))][1..] == [Frame(Right, Black, 2, Leaf(Black, 1))];
    }
    assert Plug(Node(Black, Leaf(Red, 3), 4, Leaf(Red, 5)), [Frame(Right, Black, 2, Leaf(Black, 1))]) == Plug(Node(Black, Leaf(Black, 1), 2, Node(Black, Leaf(Red, 3), 4, Leaf(Red, 5))), []) by {
      assert [Frame(Right, Black, 2, Leaf(Black, 1))][1..] == [];
    }
  }

  lemma LeftUncleCaseStep5()
    ensures InsertTree(Node(Black, Leaf(Black, 1), 2, Node(Black, Nil, 3, Leaf(Red, 4))), 5) == Node(Black, Leaf(Black, 1), 2, Node(Black, Leaf(Red, 3), 4, Leaf(Red, 5)))
  {
    assert Locate(Node(Black, Leaf(Black, 1), 2, Node(Black, Nil, 3, Leaf(Red, 4))), [], 5) == Locate(Node(Black, Nil, 3, Leaf(Red, 4)), [Frame(Right, Black, 2, Leaf(Black, 1))], 5) by {
      assert [Down(Node(Black, Leaf(Black, 1), 2, Node(Black, Nil, 3, Leaf(Red, 4))), Right)] + [] == [Frame(Right, Black, 2, Leaf(Black, 1))];
    }
    assert Locate(Node(Black, Nil, 3, Leaf(Red, 4)), [Frame(Right, Black, 2, Leaf(Black, 1))], 5) == Locate(Leaf(Red, 4), [Frame(Right, Black, 3, Nil), Frame(Right, Black, 2, Leaf(Black, 1))], 5) by {
      assert [Down(Node(Black, Nil, 3, Leaf(Red, 4)), Right)] + [Frame(Right, Black, 2, Leaf(Black, 1))] == [Frame(Right, Black, 3, Nil), Frame(Right, Black, 2, Leaf(Black, 1))];
    }
    assert Locate(Leaf(Red, 4), [Frame(Right, Black, 3, Nil), Frame(Right, Black, 2, Leaf(Black, 1))], 5) == Locate(Nil, [Frame(Right, Red, 4, Nil), Frame(Right, Black, 3, Nil), Frame(Right, Black, 2, Leaf(Black, 1))], 5) by {
      assert [Down(Leaf(Red, 4), Right)] + [Frame(Right, Black, 3, Nil), Frame(Right, Black, 2, Leaf(Black, 1))] == [Frame(Right, Red, 4, Nil), Frame(Right, Black, 3, Nil), Frame(Right, Black, 2, Leaf(Black, 1))];
    }
    assert Locate(Node(Black, Leaf(Black, 1), 2, Node(Black, Nil, 3, Leaf(Red, 4))), [], 5) == (Nil, [Frame(Right, Red, 4, Nil), Frame(Right, Black, 3, Nil), Frame(Right, Black, 2, Leaf(Black, 1))]);
    LeftUncleCaseStep5FixUp();
  }

  /** Inserting 1 to 4: the red uncle 1 is recoloured, leaving 2 black over black 1 and black 3, with 4 red under 3; inserting 5 then finds the black uncle and rotates at 3, giving 2 over 1 and 4, with 3 and 5 red under 4. */
  lemma LeftUncleCase()
    ensures InsertTree(InsertTree(InsertTree(InsertTree(Nil, 1), 2), 3), 4)
      == Node(Black, Leaf(Black, 1), 2, Node(Black, Nil, 3, Leaf(Red, 4)))
    ensures InsertTree(InsertTree(InsertTree(InsertTree(InsertTree(Nil, 1), 2), 3), 4), 5)
      == Node(Black, Leaf(Black, 1), 2, Node(Black, Leaf(Red, 3), 4, Leaf(Red, 5)))
  {
    InsertIntoEmpty(1);
    RightRightRotationStep2();
    RightRightRotationStep3();
    LeftUncleCaseStep4();
    LeftUncleCaseStep5();
  }

  lemma RightUncleCaseStep2FixUp()
    ensures InsertFixUp(Leaf(Red, 3), [Frame(Right, Black, 2, Nil)]) == Node(Black, Nil, 2, Leaf(Red, 3))
  {
    assert Plug(Leaf(Red, 3), [Frame(Right, Black, 2, Nil)]) == Plug(Node(Black, Nil, 2, Leaf(Red, 3)), []) by {
      assert [Frame(Right, Black, 2, Nil)][1..] == [];
    }
  }

  lemma RightUncleCaseStep2()
    ensures InsertTree(Leaf(Black, 2), 3) == Node(Black, Nil, 2, Leaf(Red, 3))
  {
    assert Locate(Leaf(Black, 2), [], 3) == Locate(Nil, [Frame(Right, Black, 2, Nil)], 3) by {
      assert [Down(Leaf(Black, 2), Right)] + [] == [Frame(Right, Black, 2, Nil)];
    }
    assert Locate(Leaf(Black, 2), [], 3) == (Nil, [Frame(Right, Black, 2, Nil)]);
    RightUncleCaseStep2FixUp();
  }

  lemma RightUncleCaseStep3FixUp()
    ensures InsertFixUp(Leaf(Red, 4), [Frame(Right, Red, 3, Nil), Frame(Right, Black, 2, Nil)]) == Node(Black, Leaf(Red, 2), 3, Leaf(Red, 4))
  {
    assert Rotate(Leaf(Red, 4), [Frame(Right, Red, 3, Nil), Frame(Right, Black, 2, Nil)]) == (Leaf(Red, 4), [Frame(Right, Black, 3, Leaf(Red, 2))]) by {
      assert [Frame(Right, Black, 3, Leaf(Red, 2))] + [Frame(Right, Red, 3, Nil), Frame(Right, Black, 2, Nil)][2..] == [Frame(Right, Black, 3, Leaf(Red, 2))];
    }
    assert InsertFixUp(Leaf(Red, 4), [Frame(Right, Red, 3, Nil), Frame(Right, Black, 2, Nil)]) == InsertFixUp(Leaf(Red, 4), [Frame(Right, Black, 3, Leaf(Red, 2))]);
    assert Plug(Leaf(Red, 4), [Frame(Right, Black, 3, Leaf(Red, 2))]) == Plug(Node(Black, Leaf(Red, 2), 3, Leaf(Red, 4)), []) by {
      assert [Frame(Right, Black, 3, Leaf(Red, 2))][1..] == [];
    }
  }

  lemma RightUncleCaseStep3()
    ensures InsertTree(Node(Black, Nil, 2, Leaf(Red, 3)), 4) == Node(Black, Leaf(Red, 2), 3, Leaf(Red, 4))
  {
    assert Locate(Node(Black, Nil, 2, Leaf(Red, 3)), [], 4) == Locate(Leaf(Red, 3), [Frame(Right, Black, 2, Nil)], 4) by {
      assert [Down(Node(Black, Nil, 2, Leaf(Red, 3)), Right)] + [] == [Frame(Right, Black, 2, Nil)];
    }
    assert Locate(Leaf(Red, 3), [Frame(Right, Black, 2, Nil)], 4) == Locate(Nil, [Frame(Right, Red, 3, Nil), Frame(Right, Black, 2, Nil)], 4) by {
      assert [Down(Leaf(Red, 3), Right)] + [Frame(Right, Black, 2, Nil)] == [Frame(Right, Red, 3, Nil), Frame(Right, Black, 2, Nil)];
    }
    assert Locate(Node(Black, Nil, 2, Leaf(Red, 3)), [], 4) == (Nil, [Frame(Right, Red, 3, Nil), Frame(Right, Black, 2, Nil)]);
    RightUncleCaseStep3FixUp();
  }

  lemma RightUncleCaseStep4FixUp()
    ensures InsertFixUp(Leaf(Red, 1), [Frame(Left, Red, 2, Nil), Frame(Left, Black, 3, Leaf(Red, 4))]) == Node(Black, Node(Black, Leaf(Red, 1), 2, Nil), 3, Leaf(Black, 4))
  {
    assert RecolorUp(Leaf(Red, 1), [Frame(Left, Red, 2, Nil), Frame(Left, Black, 3, Leaf(Red, 4))]) == (Node(Red, Node(Black, Leaf(Red, 1), 2, Nil), 3, Leaf(Black, 4)), []) by {
      assert [Frame(Left, Red, 2, Nil), Frame(Left, Black, 3, Leaf(Red, 4))][2..] == [];
    }
    assert InsertFixUp(Leaf(Red, 1), [Frame(Left, Red, 2, Nil), Frame(Left, Black, 3, Leaf(Red, 4))]) == InsertFixUp(Node(Red, Node(Black, Leaf(Red, 1), 2, Nil), 3, Leaf(Black, 4)), []);
  }

  lemma RightUncleCaseStep4()
    ensures InsertTree(Node(Black, Leaf(Red, 2), 3, Leaf(Red, 4)), 1) == Node(Black, Node(Black, Leaf(Red, 1), 2, Nil), 3, Leaf(Black, 4))
  {
    assert Locate(Node(Black, Leaf(Red, 2), 3, Leaf(Red, 4)), [], 1) == Locate(Leaf(Red, 2), [Frame(Left, Black, 3, Leaf(Red, 4))], 1) by {
      assert [Down(Node(Black, Leaf(Red, 2), 3, Leaf(Red, 4)), Left)] + [] == [Frame(Left, Black, 3, Leaf(Red, 4))];
    }
    assert Locate(Leaf(Red, 2), [Frame(Left, Black, 3, Leaf(Red, 4))], 1) == Locate(Nil, [Frame(Left, Red, 2, Nil), Frame(Left, Black, 3, Leaf(Red, 4))], 1) by {
      assert [Down(Leaf(Red, 2), Left)] + [Frame(Left, Black, 3, Leaf(Red, 4))] == [Frame(Left, Red, 2, Nil), Frame(Left, Black, 3, Leaf(Red, 4))];
    }
    assert Locate(Node(Black, Leaf(Red, 2), 3, Leaf(Red, 4)), [], 1) == (Nil, [Frame(Left, Red, 2, Nil), Frame(Left, Black, 3, Leaf(Red, 4))]);
    RightUncleCaseStep4FixUp();
  }

  lemma RightUncleCaseStep5FixUp()
    ensures InsertFixUp(Leaf(Red, 0), [Frame(Left, Red, 1, Nil), Frame(Left, Black, 2, Nil), Frame(Left, Black, 3, Leaf(Black, 4))]) == Node(Black, Node(Black, Leaf(Red, 0), 1, Leaf(Red, 2)), 3, Leaf(Black, 4))
  {
    assert Rotate(Leaf(Red, 0), [Frame(Left, Red, 1, Nil), Frame(Left, Black, 2, Nil), Frame(Left, Black, 3, Leaf(Black, 4))]) == (Leaf(Red, 0), [Frame(Left, Black, 1, Leaf(Red, 2)), Frame(Left, Black, 3, Leaf(Black, 4))]) by {
      assert [Frame(Left, Black, 1, Leaf(Red, 2))] + [Frame(Left, Red, 1, Nil), Frame(Left, Black, 2, Nil), Frame(Left, Black, 3, Leaf(Black, 4))][2..] == [Frame(Left, Black, 1, Leaf(Red, 2)), Frame(Left, Black, 3, Leaf(Black, 4))];
    }
    assert InsertFixUp(Leaf(Red, 0), [Frame(Left, Red, 1, Nil), Frame(Left, Black, 2, Nil), Frame(Left, Black, 3, Leaf(Black, 4))]) == InsertFixUp(Leaf(Red, 0), [Frame(Left, Black, 1, Leaf(Red, 2)), Frame(Left, Black, 3, Leaf(Black, 4))]);
    assert Plug(Leaf(Red, 0), [Frame(Left, Black, 1, Leaf(Red, 2)), Frame(Left, Black, 3, Leaf(Black, 4))]) == Plug(Node(Black, Leaf(Red, 0), 1, Leaf(Red, 2)), [Frame(Left, Black, 3, Leaf(Black, 4))]) by {
      assert [Frame(Left, Black, 1, Leaf(Red, 2)), Frame(Left, Black, 3, Leaf(Black, 4))][1..] == [Frame(Left, Black, 3, Leaf(Black, 4))];
    }
    assert Plug(Node(Black, Leaf(Red, 0), 1, Leaf(Red, 2)), [Frame(Left, Black, 3, Leaf(Black, 4))]) == Plug(Node(Black, Node(Black, Leaf(Red, 0), 1, Leaf(Red, 2)), 3, Leaf(Black, 4)), []) by {
      assert [Frame(Left, Black, 3, Leaf(Black, 4))][1..] == [];
    }
  }

  lemma RightUncleCaseStep5()
    ensures InsertTree(Node(Black, Node(Black, Leaf(Red, 1), 2, Nil), 3, Leaf(Black, 4)), 0) == Node(Black, Node(Black, Leaf(Red, 0), 1, Leaf(Red, 2)), 3, Leaf(Black, 4))
  {
    assert Locate(Node(Black, Node(Black, Leaf(Red, 1), 2, Nil), 3, Leaf(Black, 4)), [], 0) == Locate(Node(Black, Leaf(Red, 1), 2, Nil), [Frame(Left, Black, 3, Leaf(Black, 4))], 0) by {
      assert [Down(Node(Black, Node(Black, Leaf(Red, 1), 2, Nil), 3, Leaf(Black, 4)), Left)] + [] == [Frame(Left, Black, 3, Leaf(Black, 4))];
    }
    assert Locate(Node(Black, Leaf(Red, 1), 2, Nil), [Frame(Left, Black, 3, Leaf(Black, 4))], 0) == Locate(Leaf(Red, 1), [Frame(Left, Black, 2, Nil), Frame(Left, Black, 3, Leaf(Black, 4))], 0) by {
      assert [Down(Node(Black, Leaf(Red, 1), 2, Nil), Left)] + [Frame(Left, Black, 3, Leaf(Black, 4))] == [Frame(Left, Black, 2, Nil), Frame(Left, Black, 3, Leaf(Black, 4))];
    }
    assert Locate(Leaf(Red, 1), [Frame(Left, Black, 2, Nil), Frame(Left, Black, 3, Leaf(Black, 4))], 0) == Locate(Nil, [Frame(Left, Red, 1, Nil), Frame(Left, Black, 2, Nil), Frame(Left, Black, 3, Leaf(Black, 4))], 0) by {
      assert [Down(Leaf(Red, 1), Left)] + [Frame(Left, Black, 2, Nil), Frame(Left, Black, 3, Leaf(Black, 4))] == [Frame(Left, Red, 1, Nil), Frame(Left, Black, 2, Nil), Frame(Left, Black, 3, Leaf(Black, 4))];
    }
    assert Locate(Node(Black, Node(Black, Leaf(Red, 1), 2, Nil), 3, Leaf(Black, 4)), [], 0) == (Nil, [Frame(Left, Red, 1, Nil), Frame(Left, Black, 2, Nil), Frame(Left, Black, 3, Leaf(Black, 4))]);
    RightUncleCaseStep5FixUp();
  }

  /** Inserting 2, 3, 4, 1: the red uncle 4 is recoloured, leaving 3 black over black 2 and black 4, with 1 red under 2; inserting 0 then finds the black uncle and rotates at 2, giving 3 over 1 and 4, with 0 and 2 red under 1. */
  lemma RightUncleCase()
    ensures InsertTree(InsertTree(InsertTree(InsertTree(Nil, 2), 3), 4), 1)
      == Node(Black, Node(Black, Leaf(Red, 1), 2, Nil), 3, Leaf(Black, 4))
    ensures InsertTree(InsertTree(InsertTree(InsertTree(InsertTree(Nil, 2), 3), 4), 1), 0)
      == Node(Black, Node(Black, Leaf(Red, 0), 1, Leaf(Red, 2)), 3, Leaf(Black, 4))
  {
    InsertIntoEmpty(2);
    RightUncleCaseStep2();
    RightUncleCaseStep3();
    RightUncleCaseStep4();
    RightUncleCaseStep5();
  }

  lemma InterestingCaseStep2FixUp()
    ensures InsertFixUp(Leaf(Red, 44), [Frame(Right, Black, 41, Nil)]) == Node(Black, Nil, 41, Leaf(Red, 44))
  {
    assert Plug(Leaf(Red, 44), [Frame(Right, Black, 41, Nil)]) == Plug(Node(Black, Nil, 41, Leaf(Red, 44)), []) by {
      assert [Frame(Right, Black, 41, Nil)][1..] == [];
    }
  }

  lemma InterestingCaseStep2()
    ensures InsertTree(Leaf(Black, 41), 44) == Node(Black, Nil, 41, Leaf(Red, 44))
  {
    assert Locate(Leaf(Black, 41), [], 44) == Locate(Nil, [Frame(Right, Black, 41, Nil)], 44) by {
      assert [Down(Leaf(Black, 41), Right)] + [] == [Frame(Right, Black, 41, Nil)];
    }
    assert Locate(Leaf(Black, 41), [], 44) == (Nil, [Frame(Right, Black, 41, Nil)]);
    InterestingCaseStep2FixUp();
  }

  lemma InterestingCaseStep3FixUp()
    ensures InsertFixUp(Leaf(Red, 95), [Frame(Right, Red, 44, Nil), Frame(Right, Black, 41, Nil)]) == Node(Black, Leaf(Red, 41), 44, Leaf(Red, 95))
  {
    assert Rotate(Leaf(Red, 95), [Frame(Right, Red, 44, Nil), Frame(Right, Black, 41, Nil)]) == (Leaf(Red, 95), [Frame(Right, Black, 44, Leaf(Red, 41))]) by {
      assert [Frame(Right, Black, 44, Leaf(Red, 41))] + [Frame(Right, Red, 44, Nil), Frame(Right, Black, 41, Nil)][2..] == [Frame(Right, Black, 44, Leaf(Red, 41))];
    }
    assert InsertFixUp(Leaf(Red, 95), [Frame(Right, Red, 44, Nil), Frame(Right, Black, 41, Nil)]) == InsertFixUp(Leaf(Red, 95), [Frame(Right, Black, 44, Leaf(Red, 41))]);
    assert Plug(Leaf(Red, 95), [Frame(Right, Black, 44, Leaf(Red, 41))]) == Plug(Node(Black, Leaf(Red, 41), 44, Leaf(Red, 95)), []) by {
      assert [Frame(Right, Black, 44, Leaf(Red, 41))][1..] == [];
    }
  }

  lemma InterestingCaseStep3()
    ensures InsertTree(Node(Black, Nil, 41, Leaf(Red, 44)), 95) == Node(Black, Leaf(Red, 41), 44, Leaf(Red, 95))
  {
    assert Locate(Node(Black, Nil, 41, Leaf(Red, 44)), [], 95) == Locate(Leaf(Red, 44), [Frame(Right, Black, 41, Nil)], 95) by {
      assert [Down(Node(Black, Nil, 41, Leaf(Red, 44)), Right)] + [] == [Frame(Right, Black, 41, Nil)];
    }
    assert Locate(Leaf(Red, 44), [Frame(Right, Black, 41, Nil)], 95) == Locate(Nil, [Frame(Right, Red, 44, Nil), Frame(Right, Black, 41, Nil)], 95) by {
      assert [Down(Leaf(Red, 44), Right)] + [Frame(Right, Black, 41, Nil)] == [Frame(Right, Red, 44, Nil), Frame(Right, Black, 41, Nil)];
    }
    assert Locate(Node(Black, Nil, 41, Leaf(Red, 44)), [], 95) == (Nil, [Frame(Right, Red, 44, Nil), Frame(Right, Black, 41, Nil)]);
    InterestingCaseStep3FixUp();
  }

  lemma InterestingCaseStep4FixUp()
    ensures InsertFixUp(Leaf(Red, 83), [Frame(Left, Red, 95, Nil), Frame(Right, Black, 44, Leaf(Red, 41))]) == Node(Black, Leaf(Black, 41), 44, Node(Black, Leaf(Red, 83), 95, Nil))
  {
    assert RecolorUp(Leaf(Red, 83), [Frame(Left, Red, 95, Nil), Frame(Right, Black, 44, Leaf(Red, 41))]) == (Node(Red, Leaf(Black, 41), 44, Node(Black, Leaf(Red, 83), 95, Nil)), []) by {
      assert [Frame(Left, Red, 95, Nil), Frame(Right, Black, 44, Leaf(Red, 41))][2..] == [];
    }
    assert InsertFixUp(Leaf(Red, 83), [Frame(Left, Red, 95, Nil), Frame(Right, Black, 44, Leaf(Red, 41))]) == InsertFixUp(Node(Red, Leaf(Black, 41), 44, Node(Black, Leaf(Red, 83), 95, Nil)), []);
  }

  lemma InterestingCaseStep4()
    ensures InsertTree(Node(Black, Leaf(Red, 41), 44, Leaf(Red, 95)), 83) == Node(Black, Leaf(Black, 41), 44, Node(Black, Leaf(Red, 83), 95, Nil))
  {
    assert Locate(Node(Black, Leaf(Red, 41), 44, Leaf(Red, 95)), [], 83) == Locate(Leaf(Red, 95), [Frame(Right, Black, 44, Leaf(Red, 41))], 83) by {
      assert [Down(Node(Black, Leaf(Red, 41), 44, Leaf(Red, 95)), Right)] + [] == [Frame(Right, Black, 44, Leaf(Red, 41))];
    }
    assert Locate(Leaf(Red, 95), [Frame(Right, Black, 44, Leaf(Red, 41))], 83) == Locate(Nil, [Frame(Left, Red, 95, Nil), Frame(Right, Black, 44, Leaf(Red, 41))], 83) by {
      assert [Down(Leaf(Red, 95), Left)] + [Frame(Right, Black, 44, Leaf(Red, 41))] == [Frame(Left, Red, 95, Nil), Frame(Right, Black, 44, Leaf(Red, 41))];
    }
    assert Locate(Node(Black, Leaf(Red, 41), 44, Leaf(Red, 95)), [], 83) == (Nil, [Frame(Left, Red, 95, Nil), Frame(Right, Black, 44, Leaf(Red, 41))]);
    InterestingCaseStep4FixUp();
  }

  lemma InterestingCaseStep5FixUp()
    ensures InsertFixUp(Leaf(Red, 72), [Frame(Left, Red, 83, Nil), Frame(Left, Black, 95, Nil), Frame(Right, Black, 44, Leaf(Black, 41))]) == Node(Black, Leaf(Black, 41), 44, Node(Black, Leaf(Red, 72), 83, Leaf(Red, 95)))
  {
    assert Rotate(Leaf(Red, 72), [Frame(Left, Red, 83, Nil), Frame(Left, Black, 95, Nil), Frame(Right, Black, 44, Leaf(Black, 41))]) == (Leaf(Red, 72), [Frame(Left, Black, 83, Leaf(Red, 95)), Frame(Right, Black, 44, Leaf(Black, 41))]) by {
      assert [Frame(Left, Black, 83, Leaf(Red, 95))] + [Frame(Left, Red, 83, Nil), Frame(Left, Black, 95, Nil), Frame(Right, Black, 44, Leaf(Black, 41))][2..] == [Frame(Left, Black, 83, Leaf(Red, 95)), Frame(Right, Black, 44, Leaf(Black, 41))];
    }
    assert InsertFixUp(Leaf(Red, 72), [Frame(Left, Red, 83, Nil), Frame(Left, Black, 95, Nil), Frame(Right, Black, 44, Leaf(Black, 41))]) == InsertFixUp(Leaf(Red, 72), [Frame(Left, Black, 83, Leaf(Red, 95)), Frame(Right, Black, 44, Leaf(Black, 41))]);
    assert Plug(Leaf(Red, 72), [Frame(Left, Black, 83, Leaf(Red, 95)), Frame(Right, Black, 44, Leaf(Black, 41))]) == Plug(Node(Black, Leaf(Red, 72), 83, Leaf(Red, 95)), [Frame(Right, Black, 44, Leaf(Black, 41))]) by {
      assert [Frame(Left, Black, 83, Leaf(Red, 95)), Frame(Right, Black, 44, Leaf(Black, 41))][1..] == [Frame(Right, Black, 44, Leaf(Black, 41))];
    }
    assert Plug(Node(Black, Leaf(Red, 72), 83, Leaf(Red, 95)), [Frame(Right, Black, 44, Leaf(Black, 41))]) == Plug(Node(Black, Leaf(Black, 41), 44, Node(Black, Leaf(Red, 72), 83, Leaf(Red, 95))), []) by {
      assert [Frame(Right, Black, 44, Leaf(Black, 41))][1..] == [];
    }
  }

  lemma InterestingCaseStep5()
    ensures InsertTree(Node(Black, Leaf(Black, 41), 44, Node(Black, Leaf(Red, 83), 95, Nil)), 72) == Node(Black, Leaf(Black, 41), 44, Node(Black, Leaf(Red, 72), 83, Leaf(Red, 95)))
  {
    assert Locate(Node(Black, Leaf(Black, 41), 44, Node(Black, Leaf(Red, 83), 95, Nil)), [], 72) == Locate(Node(Black, Leaf(Red, 83), 95, Nil), [Frame(Right, Black, 44, Leaf(Black, 41))], 72) by {
      assert [Down(Node(Black, Leaf(Black, 41), 44, Node(Black, Leaf(Red, 83), 95, Nil)), Right)] + [] == [Frame(Right, Black, 44, Leaf(Black, 41))];
    }
    assert Locate(Node(Black, Leaf(Red, 83), 95, Nil), [Frame(Right, Black, 44, Leaf(Black, 41))], 72) == Locate(Leaf(Red, 83), [Frame(Left, Black, 95, Nil), Frame(Right, Black, 44, Leaf(Black, 41))], 72) by {
      assert [Down(Node(Black, Leaf(Red, 83), 95, Nil), Left)] + [Frame(Right, Black, 44, Leaf(Black, 41))] == [Frame(Left, Black, 95, Nil), Frame(Right, Black, 44, Leaf(Black, 41))];
    }
    assert Locate(Leaf(Red, 83), [Frame(Left, Black, 95, Nil), Frame(Right, Black, 44, Leaf(Black, 41))], 72) == Locate(Nil, [Frame(Left, Red, 83, Nil), Frame(Left, Black, 95, Nil), Frame(Right, Black, 44, Leaf(Black, 41))], 72) by {
      assert [Down(Leaf(Red, 83), Left)] + [Frame(Left, Black, 95, Nil), Frame(Right, Black, 44, Leaf(Black, 41))] == [Frame(Left, Red, 83, Nil), Frame(Left, Black, 95, Nil), Frame(Right, Black, 44, Leaf(Black, 41))];
    }
    assert Locate(Node(Black, Leaf(Black, 41), 44, Node(Black, Leaf(Red, 83), 95, Nil)), [], 72) == (Nil, [Frame(Left, Red, 83, Nil), Frame(Left, Black, 95, Nil), Frame(Right, Black, 44, Leaf(Black, 41))]);
    InterestingCaseStep5FixUp();
  }

  lemma InterestingCaseStep6FixUp()
    ensures InsertFixUp(Leaf(Red, 66), [Frame(Left, Red, 72, Nil), Frame(Left, Black, 83, Leaf(Red, 95)), Frame(Right, Black, 44, Leaf(Black, 41))]) == Node(Black, Leaf(Black, 41), 44, Node(Red, Node(Black, Leaf(Red, 66), 72, Nil), 83, Leaf(Black, 95)))
  {
    assert RecolorUp(Leaf(Red, 66), [Frame(Left, Red, 72, Nil), Frame(Left, Black, 83, Leaf(Red, 95)), Frame(Right, Black, 44, Leaf(Black, 41))]) == (Node(Red, Node(Black, Leaf(Red, 66), 72, Nil), 83, Leaf(Black, 95)), [Frame(Right, Black, 44, Leaf(Black, 41))]) by {
      assert [Frame(Left, Red, 72, Nil), Frame(Left, Black, 83, Leaf(Red, 95)), Frame(Right, Black, 44, Leaf(Black, 41))][2..] == [Frame(Right, Black, 44, Leaf(Black, 41))];
    }
    assert InsertFixUp(Leaf(Red, 66), [Frame(Left, Red, 72, Nil), Frame(Left, Black, 83, Leaf(Red, 95)), Frame(Right, Black, 44, Leaf(Black, 41))]) == InsertFixUp(Node(Red, Node(Black, Leaf(Red, 66), 72, Nil), 83, Leaf(Black, 95)), [Frame(Right, Black, 44, Leaf(Black, 41))]);
    assert Plug(Node(Red, Node(Black, Leaf(Red, 66), 72, Nil), 83, Leaf(Black, 95)), [Frame(Right, Black, 44, Leaf(Black, 41))]) == Plug(Node(Black, Leaf(Black, 41), 44, Node(Red, Node(Black, Leaf(Red, 66), 72, Nil), 83, Leaf(Black, 95))), []) by {
      assert [Frame(Right, Black, 44, Leaf(Black, 41))][1..] == [];
    }
  }

  lemma InterestingCaseStep6()
    ensures InsertTree(Node(Black, Leaf(Black, 41), 44, Node(Black, Leaf(Red, 72), 83, Leaf(Red, 95))), 66) == Node(Black, Leaf(Black, 41), 44, Node(Red, Node(Black, Leaf(Red, 66), 72, Nil), 83, Leaf(Black, 95)))
  {
    assert Locate(Node(Black, Leaf(Black, 41), 44, Node(Black, Leaf(Red, 72), 83, Leaf(Red, 95))), [], 66) == Locate(Node(Black, Leaf(Red, 72), 83, Leaf(Red, 95)), [Frame(Right, Black, 44, Leaf(Black, 41))], 66) by {
      assert [Down(Node(Black, Leaf(Black, 41), 44, Node(Black, Leaf(Red, 72), 83, Leaf(Red, 95))), Right)] + [] == [Frame(Right, Black, 44, Leaf(Black, 41))];
    }
    assert Locate(Node(Black, Leaf(Red, 72), 83, Leaf(Red, 95)), [Frame(Right, Black, 44, Leaf(Black, 41))], 66) == Locate(Leaf(Red, 72), [Frame(Left, Black, 83, Leaf(Red, 95)), Frame(Right, Black, 44, Leaf(Black, 41))], 66) by {
      assert [Down(Node(Black, Leaf(Red, 72), 83, Leaf(Red, 95)), Left)] + [Frame(Right, Black, 44, Leaf(Black, 41))] == [Frame(Left, Black, 83, Leaf(Red, 95)), Frame(Right, Black, 44, Leaf(Black, 41))];
    }
    assert Locate(Leaf(Red, 72), [Frame(Left, Black, 83, Leaf(Red, 95)), Frame(Right, Black, 44, Leaf(Black, 41))], 66) == Locate(Nil, [Frame(Left, Red, 72, Nil), Frame(Left, Black, 83, Leaf(Red, 95)), Frame(Right, Black, 44, Leaf(Black, 41))], 66) by {
      assert [Down(Leaf(Red, 72), Left)] + [Frame(Left, Black, 83, Leaf(Red, 95)), Frame(Right, Black, 44, Leaf(Black, 41))] == [Frame(Left, Red, 72, Nil), Frame(Left, Black, 83, Leaf(Red, 95)), Frame(Right, Black, 44, Leaf(Black, 41))];
    }
    assert Locate(Node(Black, Leaf(Black, 41), 44, Node(Black, Leaf(Red, 72), 83, Leaf(Red, 95))), [], 66) == (Nil, [Frame(Left, Red, 72, Nil), Frame(Left, Black, 83, Leaf(Red, 95)), Frame(Right, Black, 44, Leaf(Black, 41))]);
    InterestingCaseStep6FixUp();
  }

  lemma InterestingCaseStep7FixUp()
    ensures InsertFixUp(Leaf(Red, 94), [Frame(Left, Black, 95, Nil), Frame(Right, Red, 83, Node(Black, Leaf(Red, 66), 72, Nil)), Frame(Right, Black, 44, Leaf(Black, 41))]) == Node(Black, Leaf(Black, 41), 44, Node(Red, Node(Black, Leaf(Red, 66), 72, Nil), 83, Node(Black, Leaf(Red, 94), 95, Nil)))
  {
    assert Plug(Leaf(Red, 94), [Frame(Left, Black, 95, Nil), Frame(Right, Red, 83, Node(Black, Leaf(Red, 66), 72, Nil)), Frame(Right, Black, 44, Leaf(Black, 41))]) == Plug(Node(Black, Leaf(Red, 94), 95, Nil), [Frame(Right, Red, 83, Node(Black, Leaf(Red, 66), 72, Nil)), Frame(Right, Black, 44, Leaf(Black, 41))]) by {
      assert [Frame(Left, Black, 95, Nil), Frame(Right, Red, 83, Node(Black, Leaf(Red, 66), 72, Nil)), Frame(Right, Black, 44, Leaf(Black, 41))][1..] == [Frame(Right, Red, 83, Node(Black, Leaf(Red, 66), 72, Nil)), Frame(Right, Black, 44, Leaf(Black, 41))];
    }
    assert Plug(Node(Black, Leaf(Red, 94), 95, Nil), [Frame(Right, Red, 83, Node(Black, Leaf(Red, 66), 72, Nil)), Frame(Right, Black, 44, Leaf(Black, 41))]) == Plug(Node(Red, Node(Black, Leaf(Red, 66), 72, Nil), 83, Node(Black, Leaf(Red, 94), 95, Nil)), [Frame(Right, Black, 44, Leaf(Black, 41))]) by {
      assert [Frame(Right, Red, 83, Node(Black, Leaf(Red, 66), 72, Nil)), Frame(Right, Black, 44, Leaf(Black, 41))][1..] == [Frame(Right, Black, 44, Leaf(Black, 41))];
    }
    assert Plug(Node(Red, Node(Black, Leaf(Red, 66), 72, Nil), 83, Node(Black, Leaf(Red, 94), 95, Nil)), [Frame(Right, Black, 44, Leaf(Black, 41))]) == Plug(Node(Black, Leaf(Black, 41), 44, Node(Red, Node(Black, Leaf(Red, 66), 72, Nil), 83, Node(Black, Leaf(Red, 94), 95, Nil))), []) by {
      assert [Frame(Right, Black, 44, Leaf(Black, 41))][1..] == [];
    }
  }

  lemma InterestingCaseStep7()
    ensures InsertTree(Node(Black, Leaf(Black, 41), 44, Node(Red, Node(Black, Leaf(Red, 66), 72, Nil), 83, Leaf(Black, 95))), 94) == Node(Black, Leaf(Black, 41), 44, Node(Red, Node(Black, Leaf(Red, 66), 72, Nil), 83, Node(Black, Leaf(Red, 94), 95, Nil)))
  {
    assert Locate(Node(Black, Leaf(Black, 41), 44, Node(Red, Node(Black, Leaf(Red, 66), 72, Nil), 83, Leaf(Black, 95))), [], 94) == Locate(Node(Red, Node(Black, Leaf(Red, 66), 72, Nil), 83, Leaf(Black, 95)), [Frame(Right, Black, 44, Leaf(Black, 41))], 94) by {
      assert [Down(Node(Black, Leaf(Black, 41), 44, Node(Red, Node(Black, Leaf(Red, 66), 72, Nil), 83, Leaf(Black, 95))), Right)] + [] == [Frame(Right, Black, 44, Leaf(Black, 41))];
    }
    assert Locate(Node(Red, Node(Black, Leaf(Red, 66), 72, Nil), 83, Leaf(Black, 95)), [Frame(Right, Black, 44, Leaf(Black, 41))], 94) == Locate(Leaf(Black, 95), [Frame(Right, Red, 83, Node(Black, Leaf(Red, 66), 72, Nil)), Frame(Right, Black, 44, Leaf(Black, 41))], 94) by {
      assert [Down(Node(Red, Node(Black, Leaf(Red, 66), 72, Nil), 83, Leaf(Black, 95)), Right)] + [Frame(Right, Black, 44, Leaf(Black, 41))] == [Frame(Right, Red, 83, Node(Black, Leaf(Red, 66), 72, Nil)), Frame(Right, Black, 44, Leaf(Black, 41))];
    }
    assert Locate(Leaf(Black, 95), [Frame(Right, Red, 83, Node(Black, Leaf(Red, 66), 72, Nil)), Frame(Right, Black, 44, Leaf(Black, 41))], 94) == Locate(Nil, [Frame(Left, Black, 95, Nil), Frame(Right, Red, 83, Node(Black, Leaf(Red, 66), 72, Nil)), Frame(Right, Black, 44, Leaf(Black, 41))], 94) by {
      assert [Down(Leaf(Black, 95), Left)] + [Frame(Right, Red, 83, Node(Black, Leaf(Red, 66), 72, Nil)), Frame(Right, Black, 44, Leaf(Black, 41))] == [Frame(Left, Black, 95, Nil), Frame(Right, Red, 83, Node(Black, Leaf(Red, 66), 72, Nil)), Frame(Right, Black, 44, Leaf(Black, 41))];
    }
    assert Locate(Node(Black, Leaf(Black, 41), 44, Node(Red, Node(Black, Leaf(Red, 66), 72, Nil), 83, Leaf(Black, 95))), [], 94) == (Nil, [Frame(Left, Black, 95, Nil), Frame(Right, Red, 83, Node(Black, Leaf(Red, 66), 72, Nil)), Frame(Right, Black, 44, Leaf(Black, 41))]);
    InterestingCaseStep7FixUp();
  }

  lemma InterestingCaseStep8FixUp()
    ensures InsertFixUp(Leaf(Red, 90), [Frame(Left, Red, 94, Nil), Frame(Left, Black, 95, Nil), Frame(Right, Red, 83, Node(Black, Leaf(Red, 66), 72, Nil)), Frame(Right, Black, 44, Leaf(Black, 41))]) == Node(Black, Leaf(Black, 41), 44, Node(Red, Node(Black, Leaf(Red, 66), 72, Nil), 83, Node(Black, Leaf(Red, 90), 94, Leaf(Red, 95))))
  {
    assert Rotate(Leaf(Red, 90), [Frame(Left, Red, 94, Nil), Frame(Left, Black, 95, Nil), Frame(Right, Red, 83, Node(Black, Leaf(Red, 66), 72, Nil)), Frame(Right, Black, 44, Leaf(Black, 41))]) == (Leaf(Red, 90), [Frame(Left, Black, 94, Leaf(Red, 95)), Frame(Right, Red, 83, Node(Black, Leaf(Red, 66), 72, Nil)), Frame(Right, Black, 44, Leaf(Black, 41))]) by {
      assert [Frame(Left, Black, 94, Leaf(Red, 95))] + [Frame(Left, Red, 94, Nil), Frame(Left, Black, 95, Nil), Frame(Right, Red, 83, Node(Black, Leaf(Red, 66), 72, Nil)), Frame(Right, Black, 44, Leaf(Black, 41))][2..] == [Frame(Left, Black, 94, Leaf(Red, 95)), Frame(Right, Red, 83, Node(Black, Leaf(Red, 66), 72, Nil)), Frame(Right, Black, 44, Leaf(Black, 41))];
    }
    assert InsertFixUp(Leaf(Red, 90), [Frame(Left, Red, 94, Nil), Frame(Left, Black, 95, Nil), Frame(Right, Red, 83, Node(Black, Leaf(Red, 66), 72, Nil)), Frame(Right, Black, 44, Leaf(Black, 41))]) == InsertFixUp(Leaf(Red, 90), [Frame(Left, Black, 94, Leaf(Red, 95)), Frame(Right, Red, 83, Node(Black, Leaf(Red, 66), 72, Nil)), Frame(Right, Black, 44, Leaf(Black, 41))]);
    assert Plug(Leaf(Red, 90), [Frame(Left, Black, 94, Leaf(Red, 95)), Frame(Right, Red, 83, Node(Black, Leaf(Red, 66), 72, Nil)), Frame(Right, Black, 44, Leaf(Black, 41))]) == Plug(Node(Black, Leaf(Red, 90), 94, Leaf(Red, 95)), [Frame(Right, Red, 83, Node(Black, Leaf(Red, 66), 72, Nil)), Frame(Right, Black, 44, Leaf(Black, 41))]) by {
      assert [Frame(Left, Black, 94, Leaf(Red, 95)), Frame(Right, Red, 83, Node(Black, Leaf(Red, 66), 72, Nil)), Frame(Right, Black, 44, Leaf(Black, 41))][1..] == [Frame(Right, Red, 83, Node(Black, Leaf(Red, 66), 72, Nil)), Frame(Right, Black, 44, Leaf(Black, 41))];
    }
    assert Plug(Node(Black, Leaf(Red, 90), 94, Leaf(Red, 95)), [Frame(Right, Red, 83, Node(Black, Leaf(Red, 66), 72, Nil)), Frame(Right, Black, 44, Leaf(Black, 41))]) == Plug(Node(Red, Node(Black, Leaf(Red, 66), 72, Nil), 83, Node(Black, Leaf(Red, 90), 94, Leaf(Red, 95))), [Frame(Right, Black, 44, Leaf(Black, 41))]) by {
      assert [Frame(Right, Red, 83, Node(Black, Leaf(Red, 66), 72, Nil)), Frame(Right, Black, 44, Leaf(Black, 41))][1..] == [Frame(Right, Black, 44, Leaf(Black, 41))];
    }
    assert Plug(Node(Red, Node(Black, Leaf(Red, 66), 72, Nil), 83, Node(Black, Leaf(Red, 90), 94, Leaf(Red, 95))), [Frame(Right, Black, 44, Leaf(Black, 41))]) == Plug(Node(Black, Leaf(Black, 41), 44, Node(Red, Node(Black, Leaf(Red, 66), 72, Nil), 83, Node(Black, Leaf(Red, 90), 94, Leaf(Red, 95)))), []) by {
      assert [Frame(Right, Black, 44, Leaf(Black, 41))][1..] == [];
    }
  }

  lemma InterestingCaseStep8()
    ensures InsertTree(Node(Black, Leaf(Black, 41), 44, Node(Red, Node(Black, Leaf(Red, 66), 72, Nil), 83, Node(Black, Leaf(Red, 94), 95, Nil))), 90) == Node(Black, Leaf(Black, 41), 44, Node(Red, Node(Black, Leaf(Red, 66), 72, Nil), 83, Node(Black, Leaf(Red, 90), 94, Leaf(Red, 95))))
  {
    assert Locate(Node(Black, Leaf(Black, 41), 44, Node(Red, Node(Black, Leaf(Red, 66), 72, Nil), 83, Node(Black, Leaf(Red, 94), 95, Nil))), [], 90) == Locate(Node(Red, Node(Black, Leaf(Red, 66), 72, Nil), 83, Node(Black, Leaf(Red, 94), 95, Nil)), [Frame(Right, Black, 44, Leaf(Black, 41))], 90) by {
      assert [Down(Node(Black, Leaf(Black, 41), 44, Node(Red, Node(Black, Leaf(Red, 66), 72, Nil), 83, Node(Black, Leaf(Red, 94), 95, Nil))), Right)] + [] == [Frame(Right, Black, 44, Leaf(Black, 41))];
    }
    assert Locate(Node(Red, Node(Black, Leaf(Red, 66), 72, Nil), 83, Node(Black, Leaf(Red, 94), 95, Nil)), [Frame(Right, Black, 44, Leaf(Black, 41))], 90) == Locate(Node(Black, Leaf(Red, 94), 95, Nil), [Frame(Right, Red, 83, Node(Black, Leaf(Red, 66), 72, Nil)), Frame(Right, Black, 44, Leaf(Black, 41))], 90) by {
      assert [Down(Node(Red, Node(Black, Leaf(Red, 66), 72, Nil), 83, Node(Black, Leaf(Red, 94), 95, Nil)), Right)] + [Frame(Right, Black, 44, Leaf(Black, 41))] == [Frame(Right, Red, 83, Node(Black, Leaf(Red, 66), 72, Nil)), Frame(Right, Black, 44, Leaf(Black, 41))];
    }
    assert Locate(Node(Black, Leaf(Red, 94), 95, Nil), [Frame(Right, Red, 83, Node(Black, Leaf(Red, 66), 72, Nil)), Frame(Right, Black, 44, Leaf(Black, 41))], 90) == Locate(Leaf(Red, 94), [Frame(Left, Black, 95, Nil), Frame(Right, Red, 83, Node(Black, Leaf(Red, 66), 72, Nil)), Frame(Right, Black, 44, Leaf(Black, 41))], 90) by {
      assert [Down(Node(Black, Leaf(Red, 94), 95, Nil), Left)] + [Frame(Right, Red, 83, Node(Black, Leaf(Red, 66), 72, Nil)), Frame(Right, Black, 44, Leaf(Black, 41))] == [Frame(Left, Black, 95, Nil), Frame(Right, Red, 83, Node(Black, Leaf(Red, 66), 72, Nil)), Frame(Right, Black, 44, Leaf(Black, 41))];
    }
    assert Locate(Leaf(Red, 94), [Frame(Left, Black, 95, Nil), Frame(Right, Red, 83, Node(Black, Leaf(Red, 66), 72, Nil)), Frame(Right, Black, 44, Leaf(Black, 41))], 90) == Locate(Nil, [Frame(Left, Red, 94, Nil), Frame(Left, Black, 95, Nil), Frame(Right, Red, 83, Node(Black, Leaf(Red, 66), 72, Nil)), Frame(Right, Black, 44, Leaf(Black, 41))], 90) by {
      assert [Down(Leaf(Red, 94), Left)] + [Frame(Left, Black, 95, Nil), Frame(Right, Red, 83, Node(Black, Leaf(Red, 66), 72, Nil)), Frame(Right, Black, 44, Leaf(Black, 41))] == [Frame(Left, Red, 94, Nil), Frame(Left, Black, 95, Nil), Frame(Right, Red, 83, Node(Black, Leaf(Red, 66), 72, Nil)), Frame(Right, Black, 44, Leaf(Black, 41))];
    }
    assert Locate(Node(Black, Leaf(Black, 41), 44, Node(Red, Node(Black, Leaf(Red, 66), 72, Nil), 83, Node(Black, Leaf(Red, 94), 95, Nil))), [], 90) == (Nil, [Frame(Left, Red, 94, Nil), Frame(Left, Black, 95, Nil), Frame(Right, Red, 83, Node(Black, Leaf(Red, 66), 72, Nil)), Frame(Right, Black, 44, Leaf(Black, 41))]);
    InterestingCaseStep8FixUp();
  }

  lemma InterestingCaseStep9FixUp()
    ensures InsertFixUp(Leaf(Red, 59), [Frame(Left, Red, 66, Nil), Frame(Left, Black, 72, Nil), Frame(Left, Red, 83, Node(Black, Leaf(Red, 90), 94, Leaf(Red, 95))), Frame(Right, Black, 44, Leaf(Black, 41))]) == Node(Black, Leaf(Black, 41), 44, Node(Red, Node(Black, Leaf(Red, 59), 66, Leaf(Red, 72)), 83, Node(Black, Leaf(Red, 90), 94, Leaf(Red, 95))))
  {
    assert Rotate(Leaf(Red, 59), [Frame(Left, Red, 66, Nil), Frame(Left, Black, 72, Nil), Frame(Left, Red, 83, Node(Black, Leaf(Red, 90), 94, Leaf(Red, 95))), Frame(Right, Black, 44, Leaf(Black, 41))]) == (Leaf(Red, 59), [Frame(Left, Black, 66, Leaf(Red, 72)), Frame(Left, Red, 83, Node(Black, Leaf(Red, 90), 94, Leaf(Red, 95))), Frame(Right, Black, 44, Leaf(Black, 41))]) by {
      assert [Frame(Left, Black, 66, Leaf(Red, 72))] + [Frame(Left, Red, 66, Nil), Frame(Left, Black, 72, Nil), Frame(Left, Red, 83, Node(Black, Leaf(Red, 90), 94, Leaf(Red, 95))), Frame(Right, Black, 44, Leaf(Black, 41))][2..] == [Frame(Left, Black, 66, Leaf(Red, 72)), Frame(Left, Red, 83, Node(Black, Leaf(Red, 90), 94, Leaf(Red, 95))), Frame(Right, Black, 44, Leaf(Black, 41))];
    }
    assert InsertFixUp(Leaf(Red, 59), [Frame(Left, Red, 66, Nil), Frame(Left, Black, 72, Nil), Frame(Left, Red, 83, Node(Black, Leaf(Red, 90), 94, Leaf(Red, 95))), Frame(Right, Black, 44, Leaf(Black, 41))]) == InsertFixUp(Leaf(Red, 59), [Frame(Left, Black, 66, Leaf(Red, 72)), Frame(Left, Red, 83, Node(Black, Leaf(Red, 90), 94, Leaf(Red, 95))), Frame(Right, Black, 44, Leaf(Black, 41))]);
    assert Plug(Leaf(Red, 59), [Frame(Left, Black, 66, Leaf(Red, 72)), Frame(Left, Red, 83, Node(Black, Leaf(Red, 90), 94, Leaf(Red, 95))), Frame(Right, Black, 44, Leaf(Black, 41))]) == Plug(Node(Black, Leaf(Red, 59), 66, Leaf(Red, 72)), [Frame(Left, Red, 83, Node(Black, Leaf(Red, 90), 94, Leaf(Red, 95))), Frame(Right, Black, 44, Leaf(Black, 41))]) by {
      assert [Frame(Left, Black, 66, Leaf(Red, 72)), Frame(Left, Red, 83, Node(Black, Leaf(Red, 90), 94, Leaf(Red, 95))), Frame(Right, Black, 44, Leaf(Black, 41))][1..] == [Frame(Left, Red, 83, Node(Black, Leaf(Red, 90), 94, Leaf(Red, 95))), Frame(Right, Black, 44, Leaf(Black, 41))];
    }
    assert Plug(Node(Black, Leaf(Red, 59), 66, Leaf(Red, 72)), [Frame(Left, Red, 83, Node(Black, Leaf(Red, 90), 94, Leaf(Red, 95))), Frame(Right, Black, 44, Leaf(Black, 41))]) == Plug(Node(Red, Node(Black, Leaf(Red, 59), 66, Leaf(Red, 72)), 83, Node(Black, Leaf(Red, 90), 94, Leaf(Red, 95))), [Frame(Right, Black, 44, Leaf(Black, 41))]) by {
      assert [Frame(Left, Red, 83, Node(Black, Leaf(Red, 90), 94, Leaf(Red, 95))), Frame(Right, Black, 44, Leaf(Black, 41))][1..] == [Frame(Right, Black, 44, Leaf(Black, 41))];
    }
    assert Plug(Node(Red, Node(Black, Leaf(Red, 59), 66, Leaf(Red, 72)), 83, Node(Black, Leaf(Red, 90), 94, Leaf(Red, 95))), [Frame(Right, Black, 44, Leaf(Black, 41))]) == Plug(Node(Black, Leaf(Black, 41), 44, Node(Red, Node(Black, Leaf(Red, 59), 66, Leaf(Red, 72)), 83, Node(Black, Leaf(Red, 90), 94, Leaf(Red, 95)))), []) by {
      assert [Frame(Right, Black, 44, Leaf(Black, 41))][1..] == [];
    }
  }

  lemma InterestingCaseStep9()
    ensures InsertTree(Node(Black, Leaf(Black, 41), 44, Node(Red, Node(Black, Leaf(Red, 66), 72, Nil), 83, Node(Black, Leaf(Red, 90), 94, Leaf(Red, 95)))), 59) == Node(Black, Leaf(Black, 41), 44, Node(Red, Node(Black, Leaf(Red, 59), 66, Leaf(Red, 72)), 83, Node(Black, Leaf(Red, 90), 94, Leaf(Red, 95))))
  {
    assert Locate(Node(Black, Leaf(Black, 41), 44, Node(Red, Node(Black, Leaf(Red, 66), 72, Nil), 83, Node(Black, Leaf(Red, 90), 94, Leaf(Red, 95)))), [], 59) == Locate(Node(Red, Node(Black, Leaf(Red, 66), 72, Nil), 83, Node(Black, Leaf(Red, 90), 94, Leaf(Red, 95))), [Frame(Right, Black, 44, Leaf(Black, 41))], 59) by {
      assert [Down(Node(Black, Leaf(Black, 41), 44, Node(Red, Node(Black, Leaf(Red, 66), 72, Nil), 83, Node(Black, Leaf(Red, 90), 94, Leaf(Red, 95)))), Right)] + [] == [Frame(Right, Black, 44, Leaf(Black, 41))];
    }
    assert Locate(Node(Red, Node(Black, Leaf(Red, 66), 72, Nil), 83, Node(Black, Leaf(Red, 90), 94, Leaf(Red, 95))), [Frame(Right, Black, 44, Leaf(Black, 41))], 59) == Locate(Node(Black, Leaf(Red, 66), 72, Nil), [Frame(Left, Red, 83, Node(Black, Leaf(Red, 90), 94, Leaf(Red, 95))), Frame(Right, Black, 44, Leaf(Black, 41))], 59) by {
      assert [Down(Node(Red, Node(Black, Leaf(Red, 66), 72, Nil), 83, Node(Black, Leaf(Red, 90), 94, Leaf(Red, 95))), Left)] + [Frame(Right, Black, 44, Leaf(Black, 41))] == [Frame(Left, Red, 83, Node(Black, Leaf(Red, 90), 94, Leaf(Red, 95))), Frame(Right, Black, 44, Leaf(Black, 41))];
    }
    assert Locate(Node(Black, Leaf(Red, 66), 72, Nil), [Frame(Left, Red, 83, Node(Black, Leaf(Red, 90), 94, Leaf(Red, 95))), Frame(Right, Black, 44, Leaf(Black, 41))], 59) == Locate(Leaf(Red, 66), [Frame(Left, Black, 72, Nil), Frame(Left, Red, 83, Node(Black, Leaf(Red, 90), 94, Leaf(Red, 95))), Frame(Right, Black, 44, Leaf(Black, 41))], 59) by {
      assert [Down(Node(Black, Leaf(Red, 66), 72, Nil), Left)] + [Frame(Left, Red, 83, Node(Black, Leaf(Red, 90), 94, Leaf(Red, 95))), Frame(Right, Black, 44, Leaf(Black, 41))] == [Frame(Left, Black, 72, Nil), Frame(Left, Red, 83, Node(Black, Leaf(Red, 90), 94, Leaf(Red, 95))), Frame(Right, Black, 44, Leaf(Black, 41))];
    }
    assert Locate(Leaf(Red, 66), [Frame(Left, Black, 72, Nil), Frame(Left, Red, 83, Node(Black, Leaf(Red, 90), 94, Leaf(Red, 95))), Frame(Right, Black, 44, Leaf(Black, 41))], 59) == Locate(Nil, [Frame(Left, Red, 66, Nil), Frame(Left, Black, 72, Nil), Frame(Left, Red, 83, Node(Black, Leaf(Red, 90), 94, Leaf(Red, 95))), Frame(Right, Black, 44, Leaf(Black, 41))], 59) by {
      assert [Down(Leaf(Red, 66), Left)] + [Frame(Left, Black, 72, Nil), Frame(Left, Red, 83, Node(Black, Leaf(Red, 90), 94, Leaf(Red, 95))), Frame(Right, Black, 44, Leaf(Black, 41))] == [Frame(Left, Red, 66, Nil), Frame(Left, Black, 72, Nil), Frame(Left, Red, 83, Node(Black, Leaf(Red, 90), 94, Leaf(Red, 95))), Frame(Right, Black, 44, Leaf(Black, 41))];
    }
    assert Locate(Node(Black, Leaf(Black, 41), 44, Node(Red, Node(Black, Leaf(Red, 66), 72, Nil), 83, Node(Black, Leaf(Red, 90), 94, Leaf(Red, 95)))), [], 59) == (Nil, [Frame(Left, Red, 66, Nil), Frame(Left, Black, 72, Nil), Frame(Left, Red, 83, Node(Black, Leaf(Red, 90), 94, Leaf(Red, 95))), Frame(Right, Black, 44, Leaf(Black, 41))]);
    InterestingCaseStep9FixUp();
  }

  /** Inserting 41, 44, 95, 83, 72, 66, 94, 90, 59: 44 is the black root over black 41 and red 83; 83 holds black 66 (red 59, red 72) and black 94 (red 90, red 95). */
  lemma InterestingCase()
    ensures InsertTree(InsertTree(InsertTree(InsertTree(InsertTree(InsertTree(InsertTree(InsertTree(InsertTree(Nil, 41), 44), 95), 83), 72), 66), 94), 90), 59)
      == Node(Black, Leaf(Black, 41), 44, Node(Red, Node(Black, Leaf(Red, 59), 66, Leaf(Red, 72)), 83, Node(Black, Leaf(Red, 90), 94, Leaf(Red, 95))))
  {
    InsertIntoEmpty(41);
    InterestingCaseStep2();
    InterestingCaseStep3();
    InterestingCaseStep4();
    InterestingCaseStep5();
    InterestingCaseStep6();
    InterestingCaseStep7();
    InterestingCaseStep8();
    InterestingCaseStep9();
  }

  lemma RemovalSetUpStep2FixUp()
    ensures InsertFixUp(Leaf(Red, 7), [Frame(Right, Black, 5, Nil)]) == Node(Black, Nil, 5, Leaf(Red, 7))
  {
    assert Plug(Leaf(Red, 7), [Frame(Right, Black, 5, Nil)]) == Plug(Node(Black, Nil, 5, Leaf(Red, 7)), []) by {
      assert [Frame(Right, Black, 5, Nil)][1..] == [];
    }
  }

  lemma RemovalSetUpStep2()
    ensures InsertTree(Leaf(Black, 5), 7) == Node(Black, Nil, 5, Leaf(Red, 7))
  {
    assert Locate(Leaf(Black, 5), [], 7) == Locate(Nil, [Frame(Right, Black, 5, Nil)], 7) by {
      assert [Down(Leaf(Black, 5), Right)] + [] == [Frame(Right, Black, 5, Nil)];
    }
    assert Locate(Leaf(Black, 5), [], 7) == (Nil, [Frame(Right, Black, 5, Nil)]);
    RemovalSetUpStep2FixUp();
  }

  lemma RemovalSetUpStep3FixUp()
    ensures InsertFixUp(Leaf(Red, 9), [Frame(Right, Red, 7, Nil), Frame(Right, Black, 5, Nil)]) == Node(Black, Leaf(Red, 5), 7, Leaf(Red, 9))
  {
    assert Rotate(Leaf(Red, 9), [Frame(Right, Red, 7, Nil), Frame(Right, Black, 5, Nil)]) == (Leaf(Red, 9), [Frame(Right, Black, 7, Leaf(Red, 5))]) by {
      assert [Frame(Right, Black, 7, Leaf(Red, 5))] + [Frame(Right, Red, 7, Nil), Frame(Right, Black, 5, Nil)][2..] == [Frame(Right, Black, 7, Leaf(Red, 5))];
    }
    assert InsertFixUp(Leaf(Red, 9), [Frame(Right, Red, 7, Nil), Frame(Right, Black, 5, Nil)]) == InsertFixUp(Leaf(Red, 9), [Frame(Right, Black, 7, Leaf(Red, 5))]);
    assert Plug(Leaf(Red, 9), [Frame(Right, Black, 7, Leaf(Red, 5))]) == Plug(Node(Black, Leaf(Red, 5), 7, Leaf(Red, 9)), []) by {
      assert [Frame(Right, Black, 7, Leaf(Red, 5))][1..] == [];
    }
  }

  lemma RemovalSetUpStep3()
    ensures InsertTree(Node(Black, Nil, 5, Leaf(Red, 7)), 9) == Node(Black, Leaf(Red, 5), 7, Leaf(Red, 9))
  {
    assert Locate(Node(Black, Nil, 5, Leaf(Red, 7)), [], 9) == Locate(Leaf(Red, 7), [Frame(Right, Black, 5, Nil)], 9) by {
      assert [Down(Node(Black, Nil, 5, Leaf(Red, 7)), Right)] + [] == [Frame(Right, Black, 5, Nil)];
    }
    assert Locate(Leaf(Red, 7), [Frame(Right, Black, 5, Nil)], 9) == Locate(Nil, [Frame(Right, Red, 7, Nil), Frame(Right, Black, 5, Nil)], 9) by {
      assert [Down(Leaf(Red, 7), Right)] + [Frame(Right, Black, 5, Nil)] == [Frame(Right, Red, 7, Nil), Frame(Right, Black, 5, Nil)];
    }
    assert Locate(Node(Black, Nil, 5, Leaf(Red, 7)), [], 9) == (Nil, [Frame(Right, Red, 7, Nil), Frame(Right, Black, 5, Nil)]);
    RemovalSetUpStep3FixUp();
  }

  /** Inserting 5, 7, 9: 7 is the black root with red children 5 and 9. */
  lemma RemovalSetUp()
    ensures InsertTree(InsertTree(InsertTree(Nil, 5), 7), 9)
      == Node(Black, Leaf(Red, 5), 7, Leaf(Red, 9))
  {
    InsertIntoEmpty(5);
    RemovalSetUpStep2();
    RemovalSetUpStep3();
  }

  /** Deleting the red leaf 5 just unlinks it. */
  lemma RemovalDelete5()
    ensures DeleteTree(Node(Black, Leaf(Red, 5), 7, Leaf(Red, 9)), 5) == Node(Black, Nil, 7, Leaf(Red, 9))
  {
    var t := Node(Black, Leaf(Red, 5), 7, Leaf(Red, 9));
    var ctx := [Frame(Left, Black, 7, Leaf(Red, 9))];
    assert Locate(t, [], 5) == Locate(Leaf(Red, 5), ctx, 5) by {
      assert [Down(t, Left)] + [] == ctx;
    }
    assert Plug(Nil, ctx) == Plug(Node(Black, Nil, 7, Leaf(Red, 9)), []) by {
      assert ctx[1..] == [];
    }
  }

  /** Deleting the black root 7 lifts its red child 9, which is painted
      black. */
  lemma RemovalDelete7()
    ensures DeleteTree(Node(Black, Nil, 7, Leaf(Red, 9)), 7) == Leaf(Black, 9)
  {
    assert Locate(Node(Black, Nil, 7, Leaf(Red, 9)), [], 7) == (Node(Black, Nil, 7, Leaf(Red, 9)), []);
    assert DeleteFixUp(Leaf(Red, 9), []) == Leaf(Black, 9);
  }

  /** Deleting the last key leaves the tree empty. */
  lemma RemovalDelete9()
    ensures DeleteTree(Leaf(Black, 9), 9) == Nil
  {
    assert Locate(Leaf(Black, 9), [], 9) == (Leaf(Black, 9), []);
    assert DeleteFixUp(Nil, []) == Nil;
  }

  /** Inserting 5, 7, 9 and then deleting 5, 7 and 9 in turn: each deleted
      key is gone, and the tree ends empty. */
  lemma Removal()
    ensures var t := InsertTree(InsertTree(InsertTree(Nil, 5), 7), 9);
      var t1 := DeleteTree(t, 5);
      var t2 := DeleteTree(t1, 7);
      var t3 := DeleteTree(t2, 9);
      && t1 == Node(Black, Nil, 7, Leaf(Red, 9)) && 5 !in Keys(t1)
      && t2 == Leaf(Black, 9) && 7 !in Keys(t2)
      && t3 == Nil && 9 !in Keys(t3)
  {
    RemovalSetUp();
    RemovalDelete5();
    RemovalDelete7();
    RemovalDelete9();
  }
}
